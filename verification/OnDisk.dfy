/** What the structures of ext2 say, as bytes of the volume: every position is a
    number here, taken from the structure declarations (loader/ext2fs.c:61-159),
    and nothing is stated through the functions that decode them. */
module OnDisk {
  import opened Arithmetic
  import opened Bytes
  import opened Partition
  import opened BlockMap
  import opened FileData
  import opened Directory
  import opened PathLookup
  import opened Volume

  /** The bytes s lie on the volume from byte at on. */
  ghost predicate Lies(v: Cells, at: nat, s: seq<byte>) {
    at + |s| <= |v| && forall i :: 0 <= i < |s| ==> v[at + i] == Some(s[i])
  }

  /** Reading from byte off of a sector gives what lies there, unless that is the
      end of the volume. */
  lemma ReadIsLying(v: Cells, sector: nat, off: nat, s: seq<byte>)
    ensures VolRead(v, sector, off, |s|) == Ok(s) <==> sector * 512 + off + |s| < |v| && Lies(v, sector * 512 + off, s)
  {
    var at := sector * 512 + off;
    if at + |s| < |v| && Lies(v, at, s) {
      forall i | at <= i < at + |s| ensures v[i].Some? {
        assert v[at + (i - at)] == Some(s[i - at]);
      }
      assert Values(v, at, |s|) == s;
    }
  }

  /** Bytes in a block. */
  function BytesPerBlock(log: Log): (b: nat)
    ensures 1024 <= b
  {
    [1024, 2048, 4096, 8192, 16384, 32768, 65536][log]
  }

  /** Where a block starts; sectors have 32 bits. */
  function BlockStart(log: Log, blk: nat): nat {
    blk * BytesPerBlock(log) % 0x200_0000_0000
  }

  lemma BlockIs(fs: Fs, blk: nat)
    ensures fs.BlockSize() == BytesPerBlock(fs.log) && fs.Sector(blk) * 512 == BlockStart(fs.log, blk)
  {
    var x := blk * fs.Spb();
    assert x == x / WORD * WORD + x % WORD;
    DivModUnique(x * 512, WORD * 512, x / WORD, x % WORD * 512);
    assert blk * fs.BlockSize() == x * 512;
  }

  /** Block q can be read and its j-th word is w. */
  ghost predicate WordAt(v: Cells, log: Log, q: nat, j: nat, w: nat)
    requires w < 0x1_0000_0000
  {
    var at := BlockStart(log, q);
    && at + BytesPerBlock(log) < |v| && (forall i :: at <= i < at + BytesPerBlock(log) ==> v[i].Some?)
    && Lies(v, at + 4 * j, LeBytes(w))
  }

  /** Word i of block q names a block whose word j is blk. */
  ghost predicate Through(v: Cells, log: Log, q: nat, i: nat, j: nat, blk: nat)
    requires blk < 0x1_0000_0000
  {
    exists r: nat :: r < 0x1_0000_0000 && WordAt(v, log, q, i, r) && WordAt(v, log, r, j, blk)
  }

  /** Of the 128 bytes of an inode the pointer to file block fb says blk: twelve words
      from byte 40 on, then one block of pointers, then a block of pointers to blocks
      of pointers. */
  ghost predicate Points(v: Cells, log: Log, raw: seq<byte>, fb: nat, blk: nat)
    requires |raw| == 128
  {
    var p := BytesPerBlock(log) / 4;
    && blk < 0x1_0000_0000
    && if fb < 12 then raw[40 + 4 * fb..44 + 4 * fb] == LeBytes(blk)
       else if fb < 12 + p then
         exists q: nat :: q < 0x1_0000_0000 && raw[88..92] == LeBytes(q) && WordAt(v, log, q, fb - 12, blk)
       else
         && fb < 12 + p + p * p
         && exists q: nat :: q < 0x1_0000_0000 && raw[92..96] == LeBytes(q)
              && Through(v, log, q, (fb - 12 - p) / p, (fb - 12 - p) % p, blk)
  }

  /** The four bytes of a word determine it. */
  lemma BytesOfWord(s: seq<byte>, o: nat, w: nat)
    requires o + 4 <= |s| && w < 0x1_0000_0000
    ensures s[o..o + 4] == LeBytes(w) <==> Le32(s, o) == w
  {
    assert s[o..o + 4] == [s[o], s[o + 1], s[o + 2], s[o + 3]];
    if Le32(s, o) == w {
      SameBytes(s[o] as int, s[o + 1] as int, s[o + 2] as int, s[o + 3] as int, w);
    } else if s[o..o + 4] == LeBytes(w) {
      Le32At(s, o, w);
    }
  }

  lemma SameBytes(a: int, b: int, c: int, d: int, w: nat)
    requires 0 <= a < 256 && 0 <= b < 256 && 0 <= c < 256 && 0 <= d < 256
    requires w == a + 256 * b + 0x1_0000 * (c + 256 * d)
    ensures w % 256 == a && w / 0x100 % 256 == b && w / 0x1_0000 % 256 == c && w / 0x100_0000 == d
  {
  }

  lemma WordIs(fs: Fs, q: nat, j: nat, w: nat)
    requires 4 * j + 4 <= fs.BlockSize() && w < 0x1_0000_0000
    ensures WordAt(fs.cells, fs.log, q, j, w) <==> fs.Block(q).Ok? && Le32(fs.Block(q).value, 4 * j) == w
  {
    hide LeBytes, Le32;
    BlockIs(fs, q);
    var v, at, bs := fs.cells, BlockStart(fs.log, q), fs.BlockSize();
    if at + bs < |v| && forall i :: at <= i < at + bs ==> v[i].Some? {
      var blk := fs.Block(q).value;
      assert blk == Values(v, at, bs);
      BytesOfWord(blk, 4 * j, w);
      var s := blk[4 * j..4 * j + 4];
      forall i | 0 <= i < 4 ensures v[at + 4 * j + i] == Some(s[i]) {
        assert s[i] == blk[4 * j + i];
      }
      if Lies(v, at + 4 * j, LeBytes(w)) {
        assert forall i :: 0 <= i < 4 ==> Some(s[i]) == Some(LeBytes(w)[i]);
        assert s == LeBytes(w);
      }
    }
  }

  lemma SliceOfSlice(s: seq<byte>, a: nat, b: nat, c: nat, d: nat)
    requires a <= b <= |s| && c <= d <= b - a
    ensures s[a..b][c..d] == s[a + c..a + d]
  {
    var t, u := s[a..b][c..d], s[a + c..a + d];
    forall i | 0 <= i < d - c ensures t[i] == u[i] {
      assert t[i] == s[a..b][c + i] == s[a + (c + i)];
    }
  }

  /** The words of an inode. */
  lemma PointerIs(raw: seq<byte>, i: nat, w: nat)
    requires |raw| == 128 && i < 15 && w < 0x1_0000_0000
    ensures raw[40 + 4 * i..44 + 4 * i] == LeBytes(w) <==> DecodeInode(raw).Ptr(i) == w
  {
    hide LeBytes, Le32;
    var b := raw[40..100];
    SliceOfSlice(raw, 40, 100, 4 * i, 4 * i + 4);
    BytesOfWord(b, 4 * i, w);
  }

  /** Main result on the block map: the walk gives the block that the bytes of the
      inode and of its blocks of pointers give, and no other. */
  lemma WalkIsOnDisk(fs: Fs, raw: seq<byte>, fb: nat, blk: nat)
    requires |raw| == 128
    ensures Walk(fs, DecodeInode(raw), fb) == Ok(blk) <==> Points(fs.cells, fs.log, raw, fb, blk)
  {
    hide LeBytes, Le32, WordAt, Through, VolRead, DecodeInode;
    var p := fs.PerBlock();
    BlockIs(fs, 0);
    assert BytesPerBlock(fs.log) / 4 == p && p * (p + 1) == p + p * p;
    if blk < 0x1_0000_0000 {
      if fb < 12 {
        PointerIs(raw, fb, blk);
      } else if fb < 12 + p {
        SingleIsOnDisk(fs, raw, fb, blk);
      } else if fb < 12 + p * (p + 1) {
        DoubleIsOnDisk(fs, raw, fb, blk);
      }
    }
  }

  lemma SingleIsOnDisk(fs: Fs, raw: seq<byte>, fb: nat, blk: nat)
    requires |raw| == 128 && 12 <= fb < 12 + fs.PerBlock() && blk < 0x1_0000_0000
    ensures Walk(fs, DecodeInode(raw), fb) == Ok(blk) <==>
              exists q: nat :: q < 0x1_0000_0000 && raw[88..92] == LeBytes(q) && WordAt(fs.cells, fs.log, q, fb - 12, blk)
  {
    hide LeBytes, Le32, WordAt, VolRead, DecodeInode;
    var q := DecodeInode(raw).Ptr(12);
    PointerIs(raw, 12, q);
    WordIs(fs, q, fb - 12, blk);
    forall x: nat | x < 0x1_0000_0000 && raw[88..92] == LeBytes(x) ensures x == q {
      PointerIs(raw, 12, x);
    }
  }

  lemma DoubleIsOnDisk(fs: Fs, raw: seq<byte>, fb: nat, blk: nat)
    requires |raw| == 128 && blk < 0x1_0000_0000
    requires var p := fs.PerBlock(); 12 + p <= fb < 12 + p * (p + 1)
    ensures var p := fs.PerBlock();
            Walk(fs, DecodeInode(raw), fb) == Ok(blk) <==>
              exists q: nat :: q < 0x1_0000_0000 && raw[92..96] == LeBytes(q)
                && Through(fs.cells, fs.log, q, (fb - 12 - p) / p, (fb - 12 - p) % p, blk)
  {
    hide LeBytes, Le32, WordAt, VolRead, DecodeInode;
    var p := fs.PerBlock();
    DoubleIndices(p, fb);
    var i, j := (fb - 12 - p) / p, (fb - 12 - p) % p;
    var q := DecodeInode(raw).Ptr(13);
    PointerIs(raw, 13, q);
    forall x: nat | x < 0x1_0000_0000 && raw[92..96] == LeBytes(x) ensures x == q {
      PointerIs(raw, 13, x);
    }
    var outer := fs.Block(q);
    forall x: nat | x < 0x1_0000_0000
      ensures WordAt(fs.cells, fs.log, q, i, x) <==> outer.Ok? && Le32(outer.value, 4 * i) == x
    {
      WordIs(fs, q, i, x);
    }
    if outer.Ok? {
      var r := Le32(outer.value, 4 * i);
      WordIs(fs, r, j, blk);
      assert WordAt(fs.cells, fs.log, q, i, r);
      assert Walk(fs, DecodeInode(raw), fb) == (var inner :- fs.Block(r); Ok(Le32(inner, 4 * j)));
    }
  }

  /** Byte k of the file with this inode is c: a zero where the pointer leads to the
      start of the volume, else the byte at its place in the block, which is not the
      last one of the volume. */
  ghost predicate ByteOnDisk(v: Cells, log: Log, raw: seq<byte>, k: nat, c: byte)
    requires |raw| == 128
  {
    exists blk: nat :: Points(v, log, raw, k / BytesPerBlock(log), blk) &&
      var start, off := BlockStart(log, blk), k % BytesPerBlock(log);
      if start == 0 then c == 0 else start + off + 1 < |v| && v[start + off] == Some(c)
  }

  lemma CellIsOnDisk(fs: Fs, raw: seq<byte>, k: nat, c: byte)
    requires |raw| == 128
    ensures AtCell(fs, DecodeInode(raw), k, c) <==> ByteOnDisk(fs.cells, fs.log, raw, k, c)
  {
    hide Walk, Points, DecodeInode;
    BlockIs(fs, 0);
    var fb := k / fs.BlockSize();
    var w := Walk(fs, DecodeInode(raw), fb);
    forall blk: nat ensures w == Ok(blk) <==> Points(fs.cells, fs.log, raw, fb, blk) {
      WalkIsOnDisk(fs, raw, fb, blk);
    }
    if w.Ok? {
      BlockIs(fs, w.value);
    }
  }

  /** Main result on files: reading a range of the file gives s exactly when s are the
      bytes that the volume has for it. */
  lemma FileIsOnDisk(fs: Fs, raw: seq<byte>, at: nat, s: seq<byte>)
    requires |raw| == 128
    ensures ReadFrom(fs, DecodeInode(raw), at, at + |s|) == Ok(s)
            <==> forall j :: 0 <= j < |s| ==> ByteOnDisk(fs.cells, fs.log, raw, at + j, s[j])
  {
    hide AtCell, ByteOnDisk, ReadFrom, DecodeInode;
    ReadIsCells(fs, DecodeInode(raw), at, s);
    forall j | 0 <= j < |s|
      ensures AtCell(fs, DecodeInode(raw), at + j, s[j]) <==> ByteOnDisk(fs.cells, fs.log, raw, at + j, s[j])
    {
      CellIsOnDisk(fs, raw, at + j, s[j]);
    }
  }

  /** Mode and size of an inode. */
  lemma InodeFields(raw: seq<byte>, mode: nat, size: nat)
    requires |raw| == 128 && mode < 0x1_0000 && size < 0x1_0000_0000
    requires raw[0..2] == [mode % 256, mode / 256] && raw[4..8] == LeBytes(size)
    ensures DecodeInode(raw).mode == mode && DecodeInode(raw).size == size
  {
    hide LeBytes;
    Le16At(raw, 0, mode);
    Le32At(raw, 4, size);
  }

  /** The descriptor of group g, 32 bytes in the blocks behind the superblock, names
      block table as the start of its inodes. */
  ghost predicate TableAt(fs: Fs, g: nat, table: nat)
    requires table < 0x1_0000_0000
  {
    var perBlock := BytesPerBlock(fs.log) / 32;
    var at := BlockStart(fs.log, (fs.firstData + 1 + g / perBlock) % 0x1_0000_0000) + g % perBlock * 32;
    at + 32 < |fs.cells| && (forall i :: at <= i < at + 32 ==> fs.cells[i].Some?) &&
    Lies(fs.cells, at + 8, LeBytes(table))
  }

  /** The 128 bytes raw lie where the loader takes the inode with index idx from. */
  ghost predicate PlacedAt(fs: Fs, table: nat, idx: nat, raw: seq<byte>)
    requires Geometry(fs) && idx < 0x1_0000_0000
  {
    BlockIs(fs, 0);
    PerBlockPositive(BytesPerBlock(fs.log), fs.inodeSize);
    var perBlock := BytesPerBlock(fs.log) / fs.inodeSize;
    var off := if idx < 0x8000_0000 then idx % perBlock * fs.inodeSize
               else (0x1_0000_0000 - (0x1_0000_0000 - idx) % perBlock * fs.inodeSize) % 0x1_0000_0000;
    var at := BlockStart(fs.log, (table + idx % fs.ipg / perBlock) % 0x1_0000_0000) + off;
    |raw| == 128 && at + 128 < |fs.cells| && Lies(fs.cells, at, raw)
  }

  ghost predicate InodeOnDisk(fs: Fs, ino: nat, raw: seq<byte>) {
    var idx := (ino - 1) % 0x1_0000_0000;
    Geometry(fs) &&
    exists table: nat ::
      table < 0x1_0000_0000 && TableAt(fs, idx / fs.ipg, table) && PlacedAt(fs, table, idx, raw)
  }

  lemma TableIs(fs: Fs, g: nat, table: nat)
    requires table < 0x1_0000_0000
    ensures TableAt(fs, g, table) <==> InodeTable(fs, g) == Ok(table)
  {
    hide LeBytes, Le32;
    var perBlock := BytesPerBlock(fs.log) / 32;
    var blk := (fs.firstData + 1 + g / perBlock) % 0x1_0000_0000;
    BlockIs(fs, blk);
    var v, at := fs.cells, BlockStart(fs.log, blk) + g % perBlock * 32;
    if at + 32 < |v| && forall i :: at <= i < at + 32 ==> v[i].Some? {
      var desc := Values(v, at, 32);
      BytesOfWord(desc, 8, table);
      var s := desc[8..12];
      forall i | 0 <= i < 4 ensures v[at + 8 + i] == Some(s[i]) {
        assert s[i] == desc[8 + i];
      }
      if Lies(v, at + 8, LeBytes(table)) {
        assert forall i :: 0 <= i < 4 ==> Some(s[i]) == Some(LeBytes(table)[i]);
        assert s == LeBytes(table);
      }
    }
  }

  lemma PlaceIs(fs: Fs, table: nat, idx: nat, raw: seq<byte>)
    requires Geometry(fs) && idx < 0x1_0000_0000
    ensures var place := InodePlace(fs.BlockSize(), fs.inodeSize, fs.ipg, table, idx);
            PlacedAt(fs, table, idx, raw) <==> VolRead(fs.cells, fs.Sector(place.0), place.1, 128) == Ok(raw)
  {
    hide VolRead, Lies;
    var place := InodePlace(fs.BlockSize(), fs.inodeSize, fs.ipg, table, idx);
    BlockIs(fs, place.0);
    if |raw| == 128 {
      ReadIsLying(fs.cells, fs.Sector(place.0), place.1, raw);
    }
  }

  /** Main result on inodes: what is read for a number are the fields of the 128 bytes
      that the volume has for it. */
  lemma InodeIsOnDisk(fs: Fs, ino: nat)
    ensures forall raw :: InodeOnDisk(fs, ino, raw) ==> ReadInode(fs, ino) == Ok(DecodeInode(raw))
    ensures ReadInode(fs, ino).Ok? ==>
              exists raw :: InodeOnDisk(fs, ino, raw) && |raw| == 128 && ReadInode(fs, ino) == Ok(DecodeInode(raw))
  {
    hide TableAt, PlacedAt, InodeTable, InodePlace, DecodeInode, VolRead;
    if !Geometry(fs) {
      InodeDefined(fs, ino);
      return;
    }
    var idx := (ino - 1) % 0x1_0000_0000;
    var g := idx / fs.ipg;
    forall table: nat | table < 0x1_0000_0000 ensures TableAt(fs, g, table) <==> InodeTable(fs, g) == Ok(table) {
      TableIs(fs, g, table);
    }
    forall table: nat, raw: seq<byte>
      ensures var place := InodePlace(fs.BlockSize(), fs.inodeSize, fs.ipg, table, idx);
              PlacedAt(fs, table, idx, raw) <==> VolRead(fs.cells, fs.Sector(place.0), place.1, 128) == Ok(raw)
    {
      PlaceIs(fs, table, idx, raw);
    }
    if ReadInode(fs, ino).Ok? {
      var table := InodeTable(fs, g).value;
      var place := InodePlace(fs.BlockSize(), fs.inodeSize, fs.ipg, table, idx);
      var raw := VolRead(fs.cells, fs.Sector(place.0), place.1, 128).value;
      assert PlacedAt(fs, table, idx, raw);
    }
  }

  /** What a superblock of 204 bytes at byte 1024 says. */
  ghost predicate SuperIs(sb: seq<byte>, firstData: nat, log: nat, ipg: nat, revision: nat, inodeSize: nat)
    requires |sb| == 204 && firstData < 0x1_0000_0000 && log < 0x1_0000_0000 && ipg < 0x1_0000_0000
    requires revision < 0x1_0000_0000 && inodeSize < 0x1_0000
  {
    && sb[20..24] == LeBytes(firstData) && sb[24..28] == LeBytes(log) && sb[40..44] == LeBytes(ipg)
    && sb[76..80] == LeBytes(revision) && sb[88..90] == [inodeSize % 256, inodeSize / 256]
  }

  /** Main result on mounting: the fields of the superblock make the file system, and
      the bytes of inode 2 its root. */
  lemma MountIsOnDisk(v: Cells, sb: seq<byte>, firstData: nat, log: nat, ipg: nat, revision: nat, inodeSize: nat,
                      raw: seq<byte>)
    requires |sb| == 204 && firstData < 0x1_0000_0000 && log <= 6 && ipg < 0x1_0000_0000
    requires revision < 0x1_0000_0000 && inodeSize < 0x1_0000
    requires 1024 + 204 < |v| && Lies(v, 1024, sb) && SuperIs(sb, firstData, log, ipg, revision, inodeSize)
    ensures sb[56..58] != [0x53, 0xEF] ==> MountView(v) == Err(NotExt2)
    ensures var fs := Fs(v, log, firstData, ipg, if revision == 0 then 128 else inodeSize);
            sb[56..58] == [0x53, 0xEF] && InodeOnDisk(fs, 2, raw) ==>
              |raw| == 128 && MountView(v) == Ok((fs, Node(2, Some(DecodeInode(raw)))))
  {
    hide LeBytes, Le32, Le16, VolRead, ReadInode, InodeOnDisk, DecodeInode;
    ReadIsLying(v, 2, 0, sb);
    Le32At(sb, 20, firstData);
    Le32At(sb, 24, log);
    Le32At(sb, 40, ipg);
    Le32At(sb, 76, revision);
    Le16At(sb, 88, inodeSize);
    Magic(sb);
    var fs := Fs(v, log, firstData, ipg, if revision == 0 then 128 else inodeSize);
    if InodeOnDisk(fs, 2, raw) {
      InodeIsOnDisk(fs, 2);
      InodeBytes(fs, 2, raw);
    }
  }

  lemma InodeBytes(fs: Fs, ino: nat, raw: seq<byte>)
    requires InodeOnDisk(fs, ino, raw)
    ensures |raw| == 128
  {
    hide TableAt;
  }

  lemma Magic(sb: seq<byte>)
    requires |sb| == 204
    ensures Le16(sb, 56) == EXT2_MAGIC <==> sb[56..58] == [0x53, 0xEF]
  {
    assert sb[56..58] == [sb[56], sb[57]];
  }

  /** The text of a link of up to 60 bytes is in the inode from byte 40 on, up to a NUL
      if there is one. */
  lemma ShortLink(fs: Fs, ino: nat, raw: seq<byte>, size: nat, text: seq<byte>)
    requires |raw| == 128 && size <= 60 && raw[4..8] == LeBytes(size)
    requires |text| <= size && raw[40..40 + |text|] == text && 0 !in text
    requires |text| < size ==> raw[40 + |text|] == 0
    ensures LinkText(fs, Node(ino, Some(DecodeInode(raw)))) == Ok(text)
  {
    hide LeBytes, Le32;
    Le32At(raw, 4, size);
    var b := raw[40..100];
    SliceOfSlice(raw, 40, 100, 0, size);
    var t := raw[40..40 + size];
    assert t[..|text|] == raw[40..40 + |text|];
    CStrUnique(t, text);
  }

  /** That of a longer one is the file, up to a NUL if there is one. */
  lemma LongLink(fs: Fs, ino: nat, raw: seq<byte>, s: seq<byte>, text: seq<byte>)
    requires |raw| == 128 && 60 < |s| < 0x1_0000_0000 && raw[4..8] == LeBytes(|s|) && LinkFits(fs, DecodeInode(raw))
    requires forall j :: 0 <= j < |s| ==> ByteOnDisk(fs.cells, fs.log, raw, j, s[j])
    requires |text| <= |s| && s[..|text|] == text && 0 !in text && (|text| < |s| ==> s[|text|] == 0)
    ensures LinkText(fs, Node(ino, Some(DecodeInode(raw)))) == Ok(text)
  {
    hide LeBytes, Le32, ByteOnDisk, ReadFrom, Piece, Reach;
    Le32At(raw, 4, |s|);
    forall j | 0 <= j < |s| ensures ByteOnDisk(fs.cells, fs.log, raw, 0 + j, s[j]) {
    }
    FileIsOnDisk(fs, raw, 0, s);
    CStrUnique(s, text);
  }

  /** Raw inode and contents of a file that was read whole. */
  ghost predicate FileLies(fs: Fs, ino: nat, raw: seq<byte>, s: seq<byte>) {
    && InodeOnDisk(fs, ino, raw) && |raw| == 128
    && |s| < 0x1_0000_0000 && raw[4..8] == LeBytes(|s|)
    && forall j :: 0 <= j < |s| ==> ByteOnDisk(fs.cells, fs.log, raw, j, s[j])
  }

  lemma HeldLies(fs: Fs, ino: nat, inode: Inode, s: seq<byte>) returns (raw: seq<byte>)
    requires ReadInode(fs, ino) == Ok(inode) && |s| == inode.size && Holds(fs, inode, 0, s)
    ensures FileLies(fs, ino, raw, s)
  {
    hide Holds, InodeOnDisk, DecodeInode, ByteOnDisk, LeBytes, ReadInode, ReadFrom;
    InodeIsOnDisk(fs, ino);
    raw :| InodeOnDisk(fs, ino, raw) && |raw| == 128 && ReadInode(fs, ino) == Ok(DecodeInode(raw));
    SizeIs(raw);
    HeldIsRead(fs, inode, 0, s);
    FileIsOnDisk(fs, raw, 0, s);
    forall j | 0 <= j < |s| ensures ByteOnDisk(fs.cells, fs.log, raw, j, s[j]) {
      assert ByteOnDisk(fs.cells, fs.log, raw, 0 + j, s[j]);
    }
  }

  /** Main result on loading: what loads from a volume is, byte for byte, what the
      volume has for the regular file that the path means. */
  lemma LoadedIsOnDisk(v: Cells, path: seq<byte>)
    requires Load(v, path).Ok?
    ensures var (fs, s) := (MountView(v).value.0, Load(v, path).value);
            fs.cells == v && exists ino: nat, raw: seq<byte> ::
              Resolve(fs, 2, 2, Comps(path), 7) == Some((ino, Regular)) && FileLies(fs, ino, raw, s)
  {
    hide Resolve, Comps, Holds, AllReadable, FileLies, MountView, Contents, ReadInode;
    LoadIsContents(v, path);
    var (fs, s) := (MountView(v).value.0, Load(v, path).value);
    var inode :| Means(fs, path, inode) && |s| == inode.size && Holds(fs, inode, 0, s);
    var ino: nat :| Resolve(fs, 2, 2, Comps(path), MAX_LINKS) == Some((ino, Regular)) && ReadInode(fs, ino) == Ok(inode);
    var raw := HeldLies(fs, ino, inode, s);
  }

  lemma SizeIs(raw: seq<byte>)
    requires |raw| == 128
    ensures DecodeInode(raw).size < 0x1_0000_0000 && raw[4..8] == LeBytes(DecodeInode(raw).size)
  {
    hide LeBytes, Le32;
    BytesOfWord(raw, 4, DecodeInode(raw).size);
  }
}
