/** The bytes of a file (loader/ext2fs.c:427-495), without caches and buffers. */
module FileData {
  import opened Arithmetic
  import opened Bytes
  import opened Partition
  import opened BlockMap

  /** n bytes from offset skip of a block of the file; block 0 means a hole. */
  function Piece(fs: Fs, inode: Inode, fb: nat, skip: nat, n: nat): (r: Result<seq<byte>>)
    ensures r.Ok? ==> |r.value| == n
  {
    var blk :- Walk(fs, inode, fb);
    if fs.Sector(blk) == 0 then Ok(Zeros(n)) else VolRead(fs.cells, fs.Sector(blk), skip, n)
  }

  /** How far into its block a read of [at, end) gets before the next block. */
  function Chunk(bs: nat, at: nat, end: nat): (n: nat)
    requires 0 < bs && at < end
    ensures 0 < n <= bs - at % bs && at + n <= end
    ensures at + n == end || at % bs + n == bs
  {
    Min(end - at, bs - at % bs)
  }

  /** The range [at, end), block by block. */
  function ReadFrom(fs: Fs, inode: Inode, at: nat, end: nat): (r: Result<seq<byte>>)
    requires at <= end
    ensures r.Ok? ==> |r.value| == end - at
    decreases end - at
  {
    if at == end then Ok([])
    else
      var bs := fs.BlockSize();
      var n := Chunk(bs, at, end);
      var head :- Piece(fs, inode, at / bs, at % bs, n);
      var tail :- ReadFrom(fs, inode, at + n, end);
      Ok(head + tail)
  }

  /** ext2fs_read_file for a length already clamped to the file size. Reading
      nothing from inside a block still looks that block up. */
  function Read(fs: Fs, inode: Inode, pos: nat, len: nat): (r: Result<seq<byte>>)
    ensures r.Ok? ==> |r.value| == len
  {
    var bs := fs.BlockSize();
    if len == 0 && pos % bs != 0 then Piece(fs, inode, pos / bs, pos % bs, 0)
    else ReadFrom(fs, inode, pos, pos + len)
  }

  /** A range needs a block of pointers inside which the device stops. */
  ghost predicate ShortIn(fs: Fs, inode: Inode, pos: nat, len: nat) {
    var bs := fs.BlockSize();
    exists i: nat :: pos / bs <= i < (pos + len + bs - 1) / bs && Walk(fs, inode, i) == Err(ShortRead)
  }

  /** How many bytes of the caller's buffer a read may write: a hole in the last
      block is zeroed up to the end of that block. */
  function Reach(fs: Fs, inode: Inode, pos: nat, len: nat): (n: nat)
  {
    var bs := fs.BlockSize();
    var blockcnt := (pos + len + bs - 1) / bs;
    if blockcnt <= pos / bs then 0
    else if IsHole(fs, inode, blockcnt - 1) then Max(len, blockcnt * bs - pos)
    else len
  }

  /** A buffer of the length asked for is enough exactly when the range ends with
      its last block or that block is not a hole. */
  lemma ReachFits(fs: Fs, inode: Inode, pos: nat, len: nat)
    requires 0 < len
    ensures var bs := fs.BlockSize();
            && len <= Reach(fs, inode, pos, len)
            && (Reach(fs, inode, pos, len) == len
                <==> (pos + len) % bs == 0 || !IsHole(fs, inode, (pos + len - 1) / bs))
  {
    hide IsHole;
    LastOfRange(pos, len, fs.BlockSize());
  }

  /** The length is clamped against the size of the file, not against what is left of
      it. That comes to the same exactly when nothing is asked for, the file is
      empty, or the range starts the file or ends in it; otherwise bytes behind the
      end of the file are read as if they were its own. */
  lemma ClampRight(size: nat, pos: nat, len: nat)
    ensures Min(len, size) == Min(len, Max(0, size - pos)) <==> len == 0 || size == 0 || pos == 0 || pos + len <= size
    ensures pos + Min(len, size) <= size <==> (pos <= size && Min(len, size) == Min(len, Max(0, size - pos)))
  {
  }

  /** Byte k of the file, read on its own. */
  function FileByte(fs: Fs, inode: Inode, k: nat): Result<seq<byte>> {
    Piece(fs, inode, k / fs.BlockSize(), k % fs.BlockSize(), 1)
  }

  /** The file holds s at [at, at + |s|). */
  ghost predicate Holds(fs: Fs, inode: Inode, at: nat, s: seq<byte>) {
    forall k: nat :: at <= k < at + |s| ==> FileByte(fs, inode, k) == Ok([s[k - at]])
  }

  ghost predicate AllReadable(fs: Fs, inode: Inode, at: nat, end: nat) {
    forall k: nat :: at <= k < end ==> FileByte(fs, inode, k).Ok?
  }

  lemma PieceIsBytes(fs: Fs, inode: Inode, fb: nat, skip: nat, n: nat)
    requires 0 < n
    ensures var r := Piece(fs, inode, fb, skip, n);
            && (r.Ok? <==> forall o: nat :: skip <= o < skip + n ==> Piece(fs, inode, fb, o, 1).Ok?)
            && (r.Ok? ==> forall o: nat :: skip <= o < skip + n ==>
                  Piece(fs, inode, fb, o, 1) == Ok([r.value[o - skip]]))
  {
    var r := Piece(fs, inode, fb, skip, n);
    var w := Walk(fs, inode, fb);
    if w.Err? {
      assert Piece(fs, inode, fb, skip, 1).Err?;
    } else if fs.Sector(w.value) == 0 {
      assert Zeros(1) == [0];
    } else {
      StoredIsBytes(fs.cells, fs.Sector(w.value), skip, n);
      assert forall o: nat :: Piece(fs, inode, fb, o, 1) == VolRead(fs.cells, fs.Sector(w.value), o, 1);
    }
  }

  lemma StoredIsBytes(v: Cells, sector: nat, skip: nat, n: nat)
    requires 0 < n
    ensures var r := VolRead(v, sector, skip, n);
            && (r.Ok? <==> forall o: nat :: skip <= o < skip + n ==> VolRead(v, sector, o, 1).Ok?)
            && (r.Ok? ==> forall o: nat :: skip <= o < skip + n ==> VolRead(v, sector, o, 1) == Ok([r.value[o - skip]]))
  {
    var r, base := VolRead(v, sector, skip, n), sector * SECTOR_SIZE;
    if r.Ok? {
      forall o: nat | skip <= o < skip + n ensures VolRead(v, sector, o, 1) == Ok([r.value[o - skip]]) {
        assert Values(v, base + o, 1) == [r.value[o - skip]];
      }
    } else if |v| <= base + skip + n {
      assert VolRead(v, sector, skip + n - 1, 1).Err?;
    } else {
      var i :| base + skip <= i < base + skip + n && v[i].None?;
      assert VolRead(v, sector, i - base, 1).Err?;
    }
  }

  lemma SameBlock(fs: Fs, at: nat, k: nat)
    requires at <= k && at % fs.BlockSize() + (k - at) < fs.BlockSize()
    ensures k / fs.BlockSize() == at / fs.BlockSize()
    ensures k % fs.BlockSize() == at % fs.BlockSize() + (k - at)
  {
    var bs := fs.BlockSize();
    DivModUnique(k, bs, at / bs, at % bs + (k - at));
  }

  lemma ChunkIsBytes(fs: Fs, inode: Inode, at: nat, n: nat)
    requires 0 < n && at % fs.BlockSize() + n <= fs.BlockSize()
    ensures var r := Piece(fs, inode, at / fs.BlockSize(), at % fs.BlockSize(), n);
            IsRange(fs, inode, at, at + n, r)
  {
    hide Piece;
    var fb, skip := at / fs.BlockSize(), at % fs.BlockSize();
    PieceIsBytes(fs, inode, fb, skip, n);
    forall k: nat | at <= k < at + n
      ensures FileByte(fs, inode, k) == Piece(fs, inode, fb, skip + (k - at), 1)
    {
      SameBlock(fs, at, k);
    }
    var r := Piece(fs, inode, fb, skip, n);
    if r.Err? {
      var o: nat :| skip <= o < skip + n && Piece(fs, inode, fb, o, 1).Err?;
      assert FileByte(fs, inode, at + (o - skip)).Err?;
    }
  }

  /** r is what reading [a, b) has to give: the bytes there, or an error if one cannot be read. */
  ghost predicate IsRange(fs: Fs, inode: Inode, a: nat, b: nat, r: Result<seq<byte>>)
    requires a <= b
  {
    && (r.Ok? <==> AllReadable(fs, inode, a, b))
    && (r.Ok? ==> |r.value| == b - a && Holds(fs, inode, a, r.value))
  }

  function Join(r: Result<seq<byte>>, t: Result<seq<byte>>): Result<seq<byte>> {
    if r.Ok? && t.Ok? then Ok(r.value + t.value) else if r.Err? then r else t
  }

  lemma HoldsJoin(fs: Fs, inode: Inode, at: nat, s: seq<byte>, t: seq<byte>)
    ensures Holds(fs, inode, at, s + t) <==> Holds(fs, inode, at, s) && Holds(fs, inode, at + |s|, t)
  {
    var st := s + t;
    if Holds(fs, inode, at, st) {
      assert st[..|s|] == s && st[|s|..] == t;
      forall k: nat | at + |s| <= k < at + |s| + |t|
        ensures FileByte(fs, inode, k) == Ok([t[k - (at + |s|)]])
      {
        assert st[k - at] == t[k - (at + |s|)];
      }
    }
  }

  lemma RangesJoin(fs: Fs, inode: Inode, a: nat, b: nat, c: nat, r: Result<seq<byte>>, t: Result<seq<byte>>)
    requires a <= b <= c && IsRange(fs, inode, a, b, r) && IsRange(fs, inode, b, c, t)
    ensures IsRange(fs, inode, a, c, Join(r, t))
  {
    assert AllReadable(fs, inode, a, c) <==> AllReadable(fs, inode, a, b) && AllReadable(fs, inode, b, c);
    if r.Ok? && t.Ok? {
      HoldsJoin(fs, inode, a, r.value, t.value);
    }
  }

  /** Such a result is unique but for the error. */
  lemma RangeUnique(fs: Fs, inode: Inode, a: nat, b: nat, r: Result<seq<byte>>, t: Result<seq<byte>>)
    requires a <= b && IsRange(fs, inode, a, b, r) && IsRange(fs, inode, a, b, t)
    ensures r.Ok? <==> t.Ok?
    ensures r.Ok? ==> r.value == t.value
  {
    if r.Ok? {
      forall k | 0 <= k < b - a ensures r.value[k] == t.value[k] {
        assert Ok([r.value[k]]) == FileByte(fs, inode, a + k) == Ok([t.value[k]]);
        assert [r.value[k]][0] == [t.value[k]][0];
      }
    }
  }

  lemma NothingIsRange(fs: Fs, inode: Inode, at: nat)
    ensures IsRange(fs, inode, at, at, Ok([]))
  {
  }

  /** Main result: a range can be read exactly when each of its bytes can, and
      then gives those bytes, whatever mix of direct, indirect blocks and holes
      they lie in. */
  lemma {:induction false} ReadIsBytes(fs: Fs, inode: Inode, at: nat, end: nat)
    requires at <= end
    ensures IsRange(fs, inode, at, end, ReadFrom(fs, inode, at, end))
    decreases end - at
  {
    hide Piece, IsRange, Chunk;
    if at == end {
      NothingIsRange(fs, inode, at);
    } else {
      var bs := fs.BlockSize();
      var n := Chunk(bs, at, end);
      ChunkIsBytes(fs, inode, at, n);
      ReadIsBytes(fs, inode, at + n, end);
      var head := Piece(fs, inode, at / bs, at % bs, n);
      var tail := ReadFrom(fs, inode, at + n, end);
      assert ReadFrom(fs, inode, at, end) == Join(head, tail);
      RangesJoin(fs, inode, at, at + n, end, head, tail);
    }
  }

  lemma {:induction false} ReadError(fs: Fs, inode: Inode, at: nat, end: nat)
    requires at <= end
    ensures var r := ReadFrom(fs, inode, at, end); r.Err? ==> DeviceError(r.error)
    decreases end - at
  {
    hide Walk, Chunk, Readable, Values, DeviceError;
    if at < end {
      var bs := fs.BlockSize();
      PieceError(fs, inode, at / bs, at % bs, Chunk(bs, at, end));
      ReadError(fs, inode, at + Chunk(bs, at, end), end);
    }
  }

  lemma PieceError(fs: Fs, inode: Inode, fb: nat, skip: nat, n: nat)
    ensures var r := Piece(fs, inode, fb, skip, n); r.Err? ==> DeviceError(r.error)
  {
    hide Walk, Readable, Values;
    WalkError(fs, inode, fb);
  }

  /** A file holding s at [at, ...) reads as s there. */
  lemma HeldIsRead(fs: Fs, inode: Inode, at: nat, s: seq<byte>)
    requires Holds(fs, inode, at, s)
    ensures ReadFrom(fs, inode, at, at + |s|) == Ok(s)
  {
    ReadIsBytes(fs, inode, at, at + |s|);
    RangeUnique(fs, inode, at, at + |s|, Ok(s), ReadFrom(fs, inode, at, at + |s|));
  }

  /** What byte k of the file is on the volume: the byte at its place in the block
      that the walk gives, which must not be the last one of the volume, or a zero
      where the sector of that block is 0. */
  ghost predicate AtCell(fs: Fs, inode: Inode, k: nat, c: byte) {
    var w := Walk(fs, inode, k / fs.BlockSize());
    w.Ok? &&
    if fs.Sector(w.value) == 0 then c == 0
    else
      var at := fs.Sector(w.value) * 512 + k % fs.BlockSize();
      at + 1 < |fs.cells| && fs.cells[at] == Some(c)
  }

  lemma FileByteIsCell(fs: Fs, inode: Inode, k: nat, c: byte)
    ensures FileByte(fs, inode, k) == Ok([c]) <==> AtCell(fs, inode, k, c)
  {
    hide Walk, Readable, Values;
    var w := Walk(fs, inode, k / fs.BlockSize());
    if w.Ok? {
      OneByte(fs.cells, fs.Sector(w.value), k % fs.BlockSize(), c);
      assert Zeros(1) == [0];
    }
  }

  lemma OneByte(v: Cells, sector: nat, off: nat, c: byte)
    ensures VolRead(v, sector, off, 1) == Ok([c])
            <==> sector * 512 + off + 1 < |v| && v[sector * 512 + off] == Some(c)
  {
    var at := sector * 512 + off;
    if at + 1 < |v| && v[at].Some? {
      assert Values(v, at, 1) == [v[at].value];
      assert [v[at].value][0] == v[at].value && [c][0] == c;
    }
  }

  /** A range reads as s exactly if every byte of s is on the volume where the
      file has it. */
  lemma ReadIsCells(fs: Fs, inode: Inode, at: nat, s: seq<byte>)
    ensures ReadFrom(fs, inode, at, at + |s|) == Ok(s)
            <==> forall j :: 0 <= j < |s| ==> AtCell(fs, inode, at + j, s[j])
  {
    hide AtCell, FileByte, ReadFrom;
    HeldIsCells(fs, inode, at, s);
    if Holds(fs, inode, at, s) {
      HeldIsRead(fs, inode, at, s);
    }
    ReadIsBytes(fs, inode, at, at + |s|);
  }

  lemma HeldIsCells(fs: Fs, inode: Inode, at: nat, s: seq<byte>)
    ensures Holds(fs, inode, at, s) <==> forall j :: 0 <= j < |s| ==> AtCell(fs, inode, at + j, s[j])
  {
    hide AtCell, FileByte;
    forall j | 0 <= j < |s| ensures FileByte(fs, inode, at + j) == Ok([s[j]]) <==> AtCell(fs, inode, at + j, s[j]) {
      FileByteIsCell(fs, inode, at + j, s[j]);
    }
    if forall j :: 0 <= j < |s| ==> AtCell(fs, inode, at + j, s[j]) {
      forall k: nat | at <= k < at + |s| ensures FileByte(fs, inode, k) == Ok([s[k - at]]) {
        assert AtCell(fs, inode, at + (k - at), s[k - at]);
      }
    }
  }

  lemma ReadCells(fs: Fs, inode: Inode, pos: nat, len: nat)
    ensures var r := Read(fs, inode, pos, len);
            r.Ok? ==> forall j :: 0 <= j < len ==> AtCell(fs, inode, pos + j, r.value[j])
  {
    hide AtCell, ReadFrom, Piece;
    var r := Read(fs, inode, pos, len);
    if r.Ok? && 0 < len {
      ReadIsCells(fs, inode, pos, r.value);
    }
  }

  /** Reading [a, c) in one go equals reading [a, b) and [b, c). */
  lemma ReadSplits(fs: Fs, inode: Inode, a: nat, b: nat, c: nat)
    requires a <= b <= c
    ensures var whole := ReadFrom(fs, inode, a, c);
            var left := ReadFrom(fs, inode, a, b);
            var right := ReadFrom(fs, inode, b, c);
            && (whole.Ok? <==> left.Ok? && right.Ok?)
            && (whole.Ok? ==> whole.value == left.value + right.value)
  {
    ReadIsBytes(fs, inode, a, b);
    ReadIsBytes(fs, inode, b, c);
    ReadIsBytes(fs, inode, a, c);
    var left, right := ReadFrom(fs, inode, a, b), ReadFrom(fs, inode, b, c);
    RangesJoin(fs, inode, a, b, c, left, right);
    RangeUnique(fs, inode, a, c, ReadFrom(fs, inode, a, c), Join(left, right));
  }
}
