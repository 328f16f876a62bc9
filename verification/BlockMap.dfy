/** Where ext2 keeps inodes and the blocks of a file (loader/ext2fs.c:191-424), without caches. */
module BlockMap {
  import opened Arithmetic
  import opened Bytes
  import opened Partition

  const DIRECT := 12  // INDIRECT_BLOCKS: pointers kept in the inode itself

  /** log2_block_size of the superblock: blocks of 1 KiB to 64 KiB. */
  type Log = n: nat | n <= 6

  /** A mounted volume: its partition on its own and what the superblock says. */
  datatype Fs = Fs(cells: Cells, log: Log, firstData: nat, ipg: nat, inodeSize: nat) {

    /** 1 << LOG2_EXT2_BLOCK_SIZE: sectors in a block. */
    function Spb(): (s: nat)
      ensures 2 <= s <= 128 && s % 2 == 0
    {
      [2, 4, 8, 16, 32, 64, 128][log]
    }

    function BlockSize(): (b: nat)
      ensures 1024 <= b <= 0x1_0000
    {
      SECTOR_SIZE * Spb()
    }

    /** Pointers in an indirect block. */
    function PerBlock(): (p: nat)
      ensures 256 <= p && 4 * p == BlockSize()
    {
      128 * Spb()
    }

    /** The sector of a block as the 32-bit shift computes it. */
    function Sector(blk: nat): (s: nat)
      ensures s < WORD
    {
      blk * Spb() % WORD
    }

    function Block(blk: nat): (r: Result<seq<byte>>)
      ensures r.Ok? ==> |r.value| == BlockSize()
    {
      VolRead(cells, Sector(blk), 0, BlockSize())
    }
  }

  /** A read inside the volume is refused exactly when it takes its last byte. */
  lemma LastByteRefused(v: Cells, sector: nat, off: nat, n: nat)
    requires sector * SECTOR_SIZE + off + n <= |v|
    ensures VolRead(v, sector, off, n) == Err(PartBeyond) <==> sector * SECTOR_SIZE + off + n == |v|
  {
  }

  /** So of a volume that consists of whole blocks the last one cannot be read. */
  lemma LastBlockRefused(fs: Fs, blk: nat)
    requires blk * fs.Spb() < WORD
    requires |fs.cells| % fs.BlockSize() == 0 && (blk + 1) * fs.BlockSize() <= |fs.cells|
    ensures fs.Block(blk) == Err(PartBeyond) <==> blk + 1 == |fs.cells| / fs.BlockSize()
  {
    var bs := fs.BlockSize();
    SectorExact(fs, blk, blk);
    assert (blk + 1) * bs == blk * bs + bs;
    assert |fs.cells| == |fs.cells| / bs * bs;
    SameQuotient(blk + 1, |fs.cells| / bs, bs, 0);
    LastByteRefused(fs.cells, fs.Sector(blk), 0, bs);
  }

  type InodeBody = s: seq<byte> | |s| == 60 witness Zeros(60)

  /** struct ext2_inode, as far as the loader looks at it: b is the union of the
      block pointers and the text of a short symbolic link. */
  datatype Inode = Inode(mode: nat, size: nat, b: InodeBody) {
    function Ptr(i: nat): (n: nat)
      requires i < 15
      ensures n < WORD
    {
      Le32(b, 4 * i)
    }
  }

  /** ext2fs_read_block without its caches: the block number of a block of the file. */
  function Walk(fs: Fs, inode: Inode, fb: nat): (r: Result<nat>)
    ensures r.Ok? ==> r.value < WORD
  {
    var p := fs.PerBlock();
    if fb < DIRECT then
      Ok(inode.Ptr(fb))
    else if fb < DIRECT + p then
      var blk :- fs.Block(inode.Ptr(12));
      Ok(Le32(blk, 4 * (fb - DIRECT)))
    else if fb < DIRECT + p * (p + 1) then
      var rblock := fb - (DIRECT + p);
      DoubleIndices(p, fb);
      var outer :- fs.Block(inode.Ptr(13));
      var inner :- fs.Block(Le32(outer, 4 * (rblock / p)));
      Ok(Le32(inner, 4 * (rblock % p)))
    else
      Err(Corrupt)
  }

  /** The sector of the file block is 0: it is not stored but reads as zeros. */
  predicate IsHole(fs: Fs, inode: Inode, fb: nat) {
    var w := Walk(fs, inode, fb);
    w.Ok? && fs.Sector(w.value) == 0
  }

  lemma DoubleIndices(p: nat, fb: nat)
    requires 0 < p && DIRECT + p <= fb < DIRECT + p * (p + 1)
    ensures 0 <= (fb - (DIRECT + p)) / p < p
  {
    assert p * (p + 1) == p * p + p;
    QuotientBelow(fb - (DIRECT + p), p, p);
  }

  /** The pointer slots of an inode: in it, in its indirect block, or in the
      j-th pointer of the i-th block of its double indirect block. */
  datatype Slot = Direct(i: nat) | Single(i: nat) | Double(i: nat, j: nat)

  predicate ValidSlot(p: nat, s: Slot) {
    match s
    case Direct(i) => i < DIRECT
    case Single(i) => i < p
    case Double(i, j) => i < p && j < p
  }

  function FileBlock(p: nat, s: Slot): nat {
    match s
    case Direct(i) => i
    case Single(i) => DIRECT + i
    case Double(i, j) => DIRECT + p + i * p + j
  }

  /** What a slot holds. */
  function Follow(fs: Fs, inode: Inode, s: Slot): Result<nat>
    requires ValidSlot(fs.PerBlock(), s)
  {
    match s
    case Direct(i) => Ok(inode.Ptr(i))
    case Single(i) => var blk :- fs.Block(inode.Ptr(12)); Ok(Le32(blk, 4 * i))
    case Double(i, j) =>
      var outer :- fs.Block(inode.Ptr(13));
      var inner :- fs.Block(Le32(outer, 4 * i));
      Ok(Le32(inner, 4 * j))
  }

  /** Every file block up to the triple indirect ones has a slot ... */
  lemma BlockHasSlot(p: nat, fb: nat) returns (s: Slot)
    requires 0 < p && fb < DIRECT + p + p * p
    ensures ValidSlot(p, s) && FileBlock(p, s) == fb
  {
    if fb < DIRECT {
      s := Direct(fb);
    } else if fb < DIRECT + p {
      s := Single(fb - DIRECT);
    } else {
      DoubleIndices(p, fb);
      s := Double((fb - (DIRECT + p)) / p, (fb - (DIRECT + p)) % p);
    }
  }

  /** ... and only one. */
  lemma SlotsDistinct(p: nat, s: Slot, t: Slot)
    requires ValidSlot(p, s) && ValidSlot(p, t) && FileBlock(p, s) == FileBlock(p, t)
    ensures s == t
  {
    if s.Double? {
      DoubleSlot(p, s.i, s.j);
    }
    if t.Double? {
      DoubleSlot(p, t.i, t.j);
    }
  }

  /** The walk reads exactly the slot of its file block ... */
  lemma WalkFollowsSlot(fs: Fs, inode: Inode, s: Slot)
    requires ValidSlot(fs.PerBlock(), s)
    ensures var p := fs.PerBlock();
            && FileBlock(p, s) < DIRECT + p + p * p
            && Walk(fs, inode, FileBlock(p, s)) == Follow(fs, inode, s)
  {
    hide VolRead, Le32;
    var p := fs.PerBlock();
    if s.Double? {
      DoubleSlot(p, s.i, s.j);
    } else {
      assert 0 <= p * p;
    }
  }

  lemma DoubleSlot(p: nat, i: nat, j: nat)
    requires i < p && j < p
    ensures 0 <= i * p && i * p + j < p * p && p * (p + 1) == p * p + p
    ensures (i * p + j) / p == i && (i * p + j) % p == j
  {
    MulMono(i + 1, p, p);
    assert (i + 1) * p == i * p + p;
    DivModUnique(i * p + j, p, i, j);
  }

  /** ... and past the last slot it reports corruption. */
  lemma WalkBeyondSlots(fs: Fs, inode: Inode, fb: nat)
    requires DIRECT + fs.PerBlock() + fs.PerBlock() * fs.PerBlock() <= fb
    ensures Walk(fs, inode, fb) == Err(Corrupt)
  {
    var p := fs.PerBlock();
    assert p * (p + 1) == p * p + p;
  }

  /** A zero pointer to a pointer block is not a hole: block 0 of the volume is read
      as pointers. The file has a hole there exactly when the sector of the block
      that this word of it names is 0 in 32 bits. */
  lemma ZeroPointerBlock(fs: Fs, inode: Inode, s: Slot)
    requires ValidSlot(fs.PerBlock(), s)
    requires match s
             case Direct(_) => false
             case Single(_) => inode.Ptr(12) == 0
             case Double(i, _) => var outer := fs.Block(inode.Ptr(13)); outer.Ok? && Le32(outer.value, 4 * i) == 0
    ensures var word := if s.Single? then s.i else s.j;
            IsHole(fs, inode, FileBlock(fs.PerBlock(), s))
            <==> fs.Block(0).Ok? && fs.Sector(Le32(fs.Block(0).value, 4 * word)) == 0
  {
    hide VolRead, Le32, Walk;
    WalkFollowsSlot(fs, inode, s);
  }

  /** ext2fs_blockgroup: the first block of a group's inode table. */
  function InodeTable(fs: Fs, group: nat): (r: Result<nat>)
    ensures r.Ok? ==> r.value < WORD
  {
    var perBlock := fs.BlockSize() / 32;
    var blk := (fs.firstData + 1 + group / perBlock) % WORD;
    var desc :- VolRead(fs.cells, fs.Sector(blk), group % perBlock * 32, 32);
    Ok(Le32(desc, 8))
  }

  /** Block number and offset of the inode with index idx, in blocks of bs bytes.
      ino % inodes_per_block is a signed remainder, multiplied as 32-bit unsigned. */
  function InodePlace(bs: nat, size: nat, ipg: nat, table: nat, idx: nat): (place: (nat, nat))
    requires 0 < size <= bs && 0 < ipg && idx < WORD
    ensures place.0 < WORD
  {
    var perBlock := bs / size;
    ((table + idx % ipg / perBlock) % WORD,
     if idx < WORD / 2 then idx % perBlock * size
     else (WORD - (WORD - idx) % perBlock * size) % WORD)
  }

  function DecodeInode(raw: seq<byte>): Inode
    requires |raw| == 128
  {
    Inode(Le16(raw, 0), Le32(raw, 4), raw[40..100])
  }

  /** ext2fs_read_inode. Undefined stands for its divisions by zero. */
  function ReadInode(fs: Fs, ino: nat): Result<Inode>
  {
    if fs.ipg == 0 || fs.inodeSize == 0 || fs.BlockSize() < fs.inodeSize then Err(Undefined)
    else
      var idx := (ino - 1) % WORD;
      var table :- InodeTable(fs, idx / fs.ipg);
      var (blk, off) := InodePlace(fs.BlockSize(), fs.inodeSize, fs.ipg, table, idx);
      var raw :- VolRead(fs.cells, fs.Sector(blk), off, 128);
      Ok(DecodeInode(raw))
  }

  /** Inodes fit into blocks and groups are not empty. */
  predicate Geometry(fs: Fs) { 0 < fs.ipg && 0 < fs.inodeSize <= fs.BlockSize() }

  /** What reading the volume may report. */
  predicate DeviceError(e: Error) { e == PartBeyond || e == ShortRead || e == Corrupt }

  lemma WalkError(fs: Fs, inode: Inode, fb: nat)
    ensures Walk(fs, inode, fb).Err? ==> DeviceError(Walk(fs, inode, fb).error)
  {
    hide Le32, Readable, Values;
  }

  /** Reading an inode divides by zero on exactly the volumes without a geometry. */
  lemma InodeDefined(fs: Fs, ino: nat)
    ensures ReadInode(fs, ino) == Err(Undefined) <==> !Geometry(fs)
    ensures Geometry(fs) && ReadInode(fs, ino).Err? ==> DeviceError(ReadInode(fs, ino).error)
  {
    hide Le32, Readable, Values, InodePlace, DecodeInode;
  }

  lemma IndexInBlock(perBlock: nat, ipg: nat, idx: nat)
    requires 0 < perBlock && 0 < ipg && ipg % perBlock == 0
    ensures idx % perBlock == idx % ipg % perBlock
  {
    var q, k := ipg / perBlock, idx / ipg;
    assert idx == idx % ipg + k * ipg;
    assert k * ipg == k * q * perBlock;
    AddMultiple(idx % ipg, k * q, perBlock);
  }

  /** The offset the loader computes for index idx is the one of its place in the group. */
  predicate OffsetRight(bs: nat, size: nat, ipg: nat, table: nat, idx: nat)
    requires 0 < size <= bs && 0 < ipg && idx < WORD
  {
    InodePlace(bs, size, ipg, table, idx).1 == idx % ipg % (bs / size) * size
  }

  lemma OffsetIs(bs: nat, size: nat, perBlock: nat, ipg: nat, table: nat, idx: nat)
    requires 0 < size <= bs && perBlock == bs / size && 0 < perBlock && 0 < ipg && idx < WORD / 2
    ensures OffsetRight(bs, size, ipg, table, idx) <==> idx % perBlock == idx % ipg % perBlock
  {
    PlaceOf(bs, size, perBlock, ipg, table, idx);
    hide InodePlace;
    SameQuotient(idx % perBlock, idx % ipg % perBlock, size, 0);
  }

  lemma PerBlockPositive(bs: nat, size: nat)
    requires 0 < size <= bs
    ensures 0 < bs / size
  {
    QuotientMono(size, bs, size);
    DivModUnique(size, size, 1, 0);
  }

  /** The in-block index is taken from the inode number, not from its index in the
      group. On a volume of n inodes that is right for all of them exactly when
      there is only one group or blocks divide groups evenly. */
  lemma OffsetIndexRight(bs: nat, size: nat, ipg: nat, table: nat, n: nat)
    requires 0 < size <= bs && 0 < ipg && n <= WORD / 2
    ensures (forall idx: nat :: idx < n ==> OffsetRight(bs, size, ipg, table, idx))
            <==> n <= ipg || ipg % (bs / size) == 0
  {
    hide OffsetRight;
    var perBlock := bs / size;
    PerBlockPositive(bs, size);
    if n <= ipg || ipg % perBlock == 0 {
      forall idx: nat | idx < n ensures OffsetRight(bs, size, ipg, table, idx) {
        OffsetIs(bs, size, perBlock, ipg, table, idx);
        if n <= ipg { DivModUnique(idx, ipg, 0, idx); } else { IndexInBlock(perBlock, ipg, idx); }
      }
    } else {
      DivModUnique(ipg, ipg, 1, 0);
      OffsetIs(bs, size, perBlock, ipg, table, ipg);
      assert !OffsetRight(bs, size, ipg, table, ipg);
    }
  }

  /** From index 2^31 on (inode 0 has index 2^32 - 1) the remainder is taken of a
      negative number. The offset then is 0 or lies far behind the block; it is
      right only if 0 is. */
  lemma NegativeIndex(bs: nat, size: nat, ipg: nat, table: nat, idx: nat)
    requires 0 < size <= bs <= 0x1_0000 && 0 < ipg && WORD / 2 <= idx < WORD
    ensures var perBlock, off := bs / size, InodePlace(bs, size, ipg, table, idx).1;
            && (if (WORD - idx) % perBlock == 0 then off == 0 else bs < off)
            && (OffsetRight(bs, size, ipg, table, idx)
                <==> (WORD - idx) % perBlock == 0 && idx % ipg % perBlock == 0)
  {
    hide InodePlace;
    var perBlock := bs / size;
    PerBlockPositive(bs, size);
    var k, r := (WORD - idx) % perBlock, idx % ipg % perBlock;
    NegativePlace(bs, size, perBlock, ipg, table, idx);
    InBlock(bs, size, perBlock, k);
    InBlock(bs, size, perBlock, r);
    assert InodePlace(bs, size, ipg, table, idx).1 == if k == 0 then 0 else WORD - k * size;
  }

  lemma NegativePlace(bs: nat, size: nat, perBlock: nat, ipg: nat, table: nat, idx: nat)
    requires 0 < size <= bs && perBlock == bs / size && 0 < perBlock && 0 < ipg && WORD / 2 <= idx < WORD
    ensures InodePlace(bs, size, ipg, table, idx).1 == (WORD - (WORD - idx) % perBlock * size) % WORD
  {
  }

  /** Entry k of a block. */
  lemma InBlock(bs: nat, size: nat, perBlock: nat, k: nat)
    requires 0 < size <= bs && perBlock == bs / size && k < perBlock
    ensures k * size < bs && (0 < k ==> 0 < k * size) && (k == 0 ==> k * size == 0)
  {
    assert bs == perBlock * size + bs % size;
    EntryInTable(size, k, perBlock);
    if 0 < k { MulMono(1, k, size); }
  }

  /** Entry k of a table that starts at block table lies k entries into it. */
  lemma TableEntry(table: nat, k: nat, size: nat, perBlock: nat)
    requires 0 < size && 0 < perBlock
    ensures (table + k / perBlock) * (perBlock * size) + k % perBlock * size
            == table * (perBlock * size) + k * size
  {
    var b, o := k / perBlock, k % perBlock;
    assert k == b * perBlock + o;
    calc {
      (table + b) * (perBlock * size) + o * size;
      table * (perBlock * size) + b * (perBlock * size) + o * size;
      { assert b * (perBlock * size) == (b * perBlock) * size; }
      table * (perBlock * size) + ((b * perBlock) * size + o * size);
      { assert (b * perBlock + o) * size == (b * perBlock) * size + o * size; }
      table * (perBlock * size) + k * size;
    }
  }

  lemma SectorExact(fs: Fs, blk: nat, bound: nat)
    requires blk <= bound && bound * fs.Spb() < WORD
    ensures fs.Sector(blk) * SECTOR_SIZE == blk * fs.BlockSize()
    ensures blk < WORD
  {
    MulMono(blk, bound, fs.Spb());
    MulMono(1, fs.Spb(), blk);
  }

  /** Below 2^31 the remainder is not negative. */
  lemma PlaceOf(bs: nat, size: nat, perBlock: nat, ipg: nat, table: nat, idx: nat)
    requires 0 < size <= bs && perBlock == bs / size && 0 < perBlock && 0 < ipg && idx < WORD / 2
    ensures InodePlace(bs, size, ipg, table, idx)
            == ((table + idx % ipg / perBlock) % WORD, idx % perBlock * size)
  {
  }

  lemma PlaceInGroup(bs: nat, size: nat, perBlock: nat, ipg: nat, table: nat, idx: nat)
    requires 0 < size <= bs && perBlock == bs / size && 0 < perBlock && 0 < ipg && ipg % perBlock == 0
    requires idx < WORD / 2 && table + ipg < WORD
    ensures var k := idx % ipg;
            && k / perBlock <= k
            && InodePlace(bs, size, ipg, table, idx) == (table + k / perBlock, k % perBlock * size)
  {
    hide InodePlace;
    PlaceOf(bs, size, perBlock, ipg, table, idx);
    IndexInBlock(perBlock, ipg, idx);
    QuotientAtMost(idx % ipg, perBlock);
    NoWrap(table + idx % ipg / perBlock);
  }

  lemma NoWrap(a: nat)
    requires a < WORD
    ensures a % WORD == a
  {
  }

  lemma PlaceLinear(bs: nat, size: nat, perBlock: nat, ipg: nat, table: nat, idx: nat, place: (nat, nat))
    requires bs == perBlock * size && 0 < perBlock && 0 < size <= bs && 0 < ipg && ipg % perBlock == 0
    requires idx < WORD / 2 && table + ipg < WORD
    requires place == InodePlace(bs, size, ipg, table, idx)
    ensures place.0 * bs + place.1 == table * bs + idx % ipg * size && place.0 <= table + ipg
  {
    DivModUnique(bs, size, perBlock, 0);
    PlaceInGroup(bs, size, perBlock, ipg, table, idx);
    TableEntry(table, idx % ipg, size, perBlock);
  }

  /** The layout the loader's arithmetic takes for granted: inodes fill blocks, and
      blocks fill groups. */
  ghost predicate EvenTables(fs: Fs, perBlock: nat) {
    && 0 < fs.ipg && 0 < fs.inodeSize && 0 < perBlock && fs.inodeSize <= fs.BlockSize()
    && fs.BlockSize() == perBlock * fs.inodeSize && fs.ipg % perBlock == 0
  }

  function Group(fs: Fs, ino: nat): nat
    requires 1 <= ino && 0 < fs.ipg
  {
    (ino - 1) / fs.ipg
  }

  function IndexInGroup(fs: Fs, ino: nat): (k: nat)
    requires 1 <= ino && 0 < fs.ipg
    ensures k < fs.ipg
  {
    (ino - 1) % fs.ipg
  }

  /** Where the inode with number ino starts in a table at block table. */
  function InodeStart(fs: Fs, table: nat, ino: nat): nat
    requires 1 <= ino && 0 < fs.ipg
  {
    table * fs.BlockSize() + IndexInGroup(fs, ino) * fs.inodeSize
  }

  /** Inode ino is the 128 bytes at its place in one linear table, inside that table. */
  lemma InodeAddress(fs: Fs, ino: nat, table: nat, perBlock: nat, at: nat)
    requires 1 <= ino <= WORD / 2 && EvenTables(fs, perBlock)
    requires InodeTable(fs, Group(fs, ino)) == Ok(table)
    requires (table + fs.ipg) * fs.Spb() < WORD
    requires at == InodeStart(fs, table, ino)
    ensures ReadInode(fs, ino) == (var raw :- VolRead(fs.cells, 0, at, 128); Ok(DecodeInode(raw)))
    ensures at + fs.inodeSize <= table * fs.BlockSize() + fs.ipg * fs.inodeSize
  {
    hide InodePlace, InodeTable, DecodeInode, VolRead, IndexInGroup;
    var idx := ino - 1;
    SectorExact(fs, table + fs.ipg, table + fs.ipg);
    var place := InodePlace(fs.BlockSize(), fs.inodeSize, fs.ipg, table, idx);
    PlaceLinear(fs.BlockSize(), fs.inodeSize, perBlock, fs.ipg, table, idx, place);
    SectorExact(fs, place.0, table + fs.ipg);
    EntryInTable(fs.inodeSize, IndexInGroup(fs, ino), fs.ipg);
    InodeReadAt(fs, ino, table);
    SameRead(fs, place.0, place.1, at);
  }

  lemma InodeReadAt(fs: Fs, ino: nat, table: nat)
    requires 1 <= ino <= WORD && Geometry(fs) && InodeTable(fs, Group(fs, ino)) == Ok(table)
    ensures var place := InodePlace(fs.BlockSize(), fs.inodeSize, fs.ipg, table, ino - 1);
            ReadInode(fs, ino) == (var raw :- VolRead(fs.cells, fs.Sector(place.0), place.1, 128); Ok(DecodeInode(raw)))
    ensures IndexInGroup(fs, ino) == (ino - 1) % fs.ipg
  {
    hide InodePlace, InodeTable, DecodeInode, VolRead;
    NoWrap(ino - 1);
  }

  lemma SameRead(fs: Fs, blk: nat, off: nat, at: nat)
    requires fs.Sector(blk) * SECTOR_SIZE + off == at
    ensures VolRead(fs.cells, fs.Sector(blk), off, 128) == VolRead(fs.cells, 0, at, 128)
  {
  }

  lemma EntryInTable(size: nat, k: nat, l: nat)
    requires k < l
    ensures k * size + size <= l * size
  {
    MulMono(k + 1, l, size);
  }

  /** The table of one group ends before that of another one starts. */
  predicate TablesApart(fs: Fs, t: nat, u: nat) {
    || t * fs.BlockSize() + fs.ipg * fs.inodeSize <= u * fs.BlockSize()
    || u * fs.BlockSize() + fs.ipg * fs.inodeSize <= t * fs.BlockSize()
  }

  lemma SameGroup(fs: Fs, i: nat, j: nat)
    requires 1 <= i && 1 <= j && 0 < fs.ipg && Group(fs, i) == Group(fs, j)
    ensures i - j == IndexInGroup(fs, i) - IndexInGroup(fs, j)
  {
    assert i - 1 == Group(fs, i) * fs.ipg + IndexInGroup(fs, i);
    assert j - 1 == Group(fs, j) * fs.ipg + IndexInGroup(fs, j);
  }

  /** Different inodes occupy disjoint bytes, in one group and, where the tables of
      different groups do not overlap, everywhere. */
  lemma InodesDisjoint(fs: Fs, i: nat, j: nat, t: nat, u: nat)
    requires 1 <= i && 1 <= j && i != j && 0 < fs.ipg
    requires InodeTable(fs, Group(fs, i)) == Ok(t) && InodeTable(fs, Group(fs, j)) == Ok(u)
    requires Group(fs, i) != Group(fs, j) ==> TablesApart(fs, t, u)
    ensures var a, b := InodeStart(fs, t, i), InodeStart(fs, u, j);
            a + fs.inodeSize <= b || b + fs.inodeSize <= a
  {
    hide InodeTable, Group, IndexInGroup;
    var k, l := IndexInGroup(fs, i), IndexInGroup(fs, j);
    EntryInTable(fs.inodeSize, k, fs.ipg);
    EntryInTable(fs.inodeSize, l, fs.ipg);
    if Group(fs, i) == Group(fs, j) {
      SameGroup(fs, i, j);
      if k < l { EntryInTable(fs.inodeSize, k, l); } else { EntryInTable(fs.inodeSize, l, k); }
    }
  }
}
