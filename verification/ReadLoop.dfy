/** What the loop of ext2fs_read_file has done before each turn (loader/ext2fs.c:445-492). */
module ReadLoop {
  import opened Arithmetic
  import opened Bytes
  import opened BlockMap
  import opened FileData

  /** One past the last block that is looked at. */
  function BlockCnt(bs: nat, pos: nat, len: nat): nat
    requires 0 < bs
  {
    (len + pos + bs - 1) / bs
  }

  /** skipfirst of turn i. */
  function Skip(bs: nat, pos: nat, i: nat): nat
    requires 0 < bs
  {
    if i == pos / bs then pos % bs else 0
  }

  /** blockend of turn i: the bytes taken from its block. */
  function Take(bs: nat, pos: nat, len: nat, i: nat): int
    requires 0 < bs
  {
    var blockend := if i == BlockCnt(bs, pos, len) - 1 && (len + pos) % bs != 0 then (len + pos) % bs else bs;
    blockend - Skip(bs, pos, i)
  }

  /** The file position turn i starts from. */
  function At(bs: nat, pos: nat, len: nat, i: nat): nat
    requires 0 < bs
  {
    if i == pos / bs then pos else Min(i * bs, pos + len)
  }

  /** Before turn i the buffer holds s, and the whole read is s followed by the
      rest of the range. */
  ghost predicate Stage(fs: Fs, inode: Inode, pos: nat, len: nat, i: nat, s: seq<byte>) {
    var bs := fs.BlockSize();
    && pos / bs <= i
    && (len == 0 ==> s == [] && (i == pos / bs || Read(fs, inode, pos, 0) == Ok([])))
    && (0 < len ==>
          var at := At(bs, pos, len, i);
          pos <= at <= pos + len && |s| == at - pos
          && ReadFrom(fs, inode, pos, pos + len) == Join(Ok(s), ReadFrom(fs, inode, at, pos + len)))
  }

  lemma StageStart(fs: Fs, inode: Inode, pos: nat, len: nat)
    ensures Stage(fs, inode, pos, len, pos / fs.BlockSize(), [])
  {
    hide ReadFrom;
    var r := ReadFrom(fs, inode, pos, pos + len);
    if r.Ok? {
      assert [] + r.value == r.value;
    }
  }

  /** The sizes of turn i, seen from the range. */
  ghost predicate TurnRight(bs: nat, pos: nat, len: nat, i: nat)
    requires 0 < bs
  {
    var at, n := At(bs, pos, len, i), Take(bs, pos, len, i);
    && pos <= at < pos + len && at / bs == i && at % bs == Skip(bs, pos, i)
    && n == Chunk(bs, at, pos + len)
    && at + n == At(bs, pos, len, i + 1)
    && (i < BlockCnt(bs, pos, len) - 1 ==> Skip(bs, pos, i) + n == bs)
  }

  lemma TurnStart(bs: nat, pos: nat, len: nat, i: nat)
    requires 0 < bs && 0 < len && pos / bs <= i < BlockCnt(bs, pos, len)
    ensures var at := At(bs, pos, len, i);
            && pos <= at < pos + len && at / bs == i && at % bs == Skip(bs, pos, i)
            && at == if i == pos / bs then pos else i * bs
  {
    BlockOfRange(pos, pos + len, bs, i, if i == pos / bs then pos else i * bs);
    if pos / bs < i {
      MulMono(pos / bs + 1, i, bs);
      assert (pos / bs + 1) * bs == (pos / bs) * bs + bs;
      assert pos == (pos / bs) * bs + pos % bs;
    }
  }

  lemma TurnFull(bs: nat, pos: nat, len: nat, i: nat)
    requires 0 < bs && 0 < len && pos / bs <= i < BlockCnt(bs, pos, len)
    ensures TurnRight(bs, pos, len, i)
    ensures i == BlockCnt(bs, pos, len) - 1 ==>
              At(bs, pos, len, i) + bs - Skip(bs, pos, i) == BlockCnt(bs, pos, len) * bs
  {
    TurnStart(bs, pos, len, i);
    var at := At(bs, pos, len, i);
    BlockOfRange(pos, pos + len, bs, i, at);
    BlockCount(pos + len, bs);
    assert at == i * bs + at % bs;
    assert (i + 1) * bs == i * bs + bs;
  }

  lemma TurnEmpty(bs: nat, pos: nat, i: nat)
    requires 0 < bs && pos / bs <= i < BlockCnt(bs, pos, 0)
    ensures Take(bs, pos, 0, i) == 0 && i == pos / bs == BlockCnt(bs, pos, 0) - 1 && pos % bs != 0
    ensures pos + bs - Skip(bs, pos, i) == BlockCnt(bs, pos, 0) * bs
  {
    EmptyRange(bs, pos);
    assert (pos / bs + 1) * bs == (pos / bs) * bs + bs;
  }

  /** What the loop needs to know about turn i. */
  lemma TurnSizes(bs: nat, pos: nat, len: nat, i: nat)
    requires 0 < bs && pos / bs <= i < BlockCnt(bs, pos, len)
    ensures 0 <= Take(bs, pos, len, i) <= bs - Skip(bs, pos, i)
    ensures len == 0 ==> Take(bs, pos, len, i) == 0 && i == pos / bs == BlockCnt(bs, pos, len) - 1 && pos % bs != 0
    ensures 0 < len ==> TurnRight(bs, pos, len, i)
    ensures i == BlockCnt(bs, pos, len) - 1 ==>
              At(bs, pos, len, i) + bs - Skip(bs, pos, i) == BlockCnt(bs, pos, len) * bs
  {
    hide BlockCnt, Take;
    if len == 0 {
      TurnEmpty(bs, pos, i);
    } else {
      TurnFull(bs, pos, len, i);
    }
  }

  lemma EmptyRange(bs: nat, pos: nat)
    requires 0 < bs
    ensures var c := BlockCnt(bs, pos, 0);
            if pos % bs == 0 then c == pos / bs else c == pos / bs + 1
  {
    RoundUp(pos, bs);
  }

  lemma StageStep(fs: Fs, inode: Inode, pos: nat, len: nat, i: nat, s: seq<byte>)
    requires Stage(fs, inode, pos, len, i, s)
    requires i < BlockCnt(fs.BlockSize(), pos, len)
    requires 0 <= Take(fs.BlockSize(), pos, len, i)
    ensures var bs := fs.BlockSize();
            var p := Piece(fs, inode, i, Skip(bs, pos, i), Take(bs, pos, len, i));
            && (p.Err? ==> Read(fs, inode, pos, len) == Err(p.error))
            && (p.Ok? ==> Stage(fs, inode, pos, len, i + 1, s + p.value))
  {
    hide Piece, Skip, Take, BlockCnt, Chunk;
    var bs, end := fs.BlockSize(), pos + len;
    TurnSizes(bs, pos, len, i);
    var p := Piece(fs, inode, i, Skip(bs, pos, i), Take(bs, pos, len, i));
    if 0 < len {
      var at := At(bs, pos, len, i);
      FromStep(fs, inode, at, end);
      if p.Ok? {
        var tail := ReadFrom(fs, inode, at + Take(bs, pos, len, i), end);
        JoinAssoc(s, p.value, tail);
      }
    } else {
      ReadNothing(fs, inode, pos);
      assert p.Ok? ==> s + p.value == [];
    }
  }

  lemma ReadNothing(fs: Fs, inode: Inode, pos: nat)
    requires pos % fs.BlockSize() != 0
    ensures var bs := fs.BlockSize();
            Read(fs, inode, pos, 0) == Piece(fs, inode, pos / bs, Skip(bs, pos, pos / bs), 0)
  {
  }

  lemma FromStep(fs: Fs, inode: Inode, at: nat, end: nat)
    requires at < end
    ensures var bs := fs.BlockSize();
            var n := Chunk(bs, at, end);
            ReadFrom(fs, inode, at, end)
            == Join(Piece(fs, inode, at / bs, at % bs, n), ReadFrom(fs, inode, at + n, end))
  {
    hide Piece, Chunk;
  }

  lemma JoinAssoc(s: seq<byte>, t: seq<byte>, r: Result<seq<byte>>)
    ensures Join(Ok(s), Join(Ok(t), r)) == Join(Ok(s + t), r)
  {
    if r.Ok? {
      assert s + (t + r.value) == (s + t) + r.value;
    }
  }

  lemma StageEnd(fs: Fs, inode: Inode, pos: nat, len: nat, i: nat, s: seq<byte>)
    requires Stage(fs, inode, pos, len, i, s)
    requires BlockCnt(fs.BlockSize(), pos, len) <= i
    ensures Read(fs, inode, pos, len) == Ok(s)
  {
    hide Piece, Chunk;
    var bs, end := fs.BlockSize(), pos + len;
    if len == 0 {
      EmptyRange(bs, pos);
    } else {
      BlockCount(end, bs);
      MulMono(BlockCnt(bs, pos, len), i, bs);
      assert pos == (pos / bs) * bs + pos % bs;
      assert i != pos / bs;
      assert At(bs, pos, len, i) == end;
      assert s + [] == s;
    }
  }

  /** A turn stays within the reach of the read, also when it zeroes a hole; the
      last one fills the reach then. */
  lemma TurnFits(fs: Fs, inode: Inode, pos: nat, len: nat, i: nat)
    requires pos / fs.BlockSize() <= i < BlockCnt(fs.BlockSize(), pos, len)
    ensures var bs := fs.BlockSize();
            var o := At(bs, pos, len, i) - pos;
            && 0 <= o && 0 <= Take(bs, pos, len, i) <= bs - Skip(bs, pos, i)
            && o + Take(bs, pos, len, i) <= Reach(fs, inode, pos, len)
            && (IsHole(fs, inode, i) ==> o + bs - Skip(bs, pos, i) <= Reach(fs, inode, pos, len))
            && (i == BlockCnt(bs, pos, len) - 1 && IsHole(fs, inode, i) ==>
                  Reach(fs, inode, pos, len) == o + bs - Skip(bs, pos, i))
  {
    hide Take, IsHole, Skip;
    var bs := fs.BlockSize();
    TurnSizes(bs, pos, len, i);
    if 0 < len {
      LastOfRange(pos, len, bs);
    }
    assert BlockCnt(bs, pos, len) == (pos + len + bs - 1) / bs;
  }

  /** Without a hole at its end a read reaches no further than it is long. */
  lemma ReachOfStored(fs: Fs, inode: Inode, pos: nat, len: nat)
    ensures var bs := fs.BlockSize();
            Reach(fs, inode, pos, len) <= len
            || (pos / bs < BlockCnt(bs, pos, len) && IsHole(fs, inode, BlockCnt(bs, pos, len) - 1))
  {
    hide IsHole;
    assert BlockCnt(fs.BlockSize(), pos, len) == (pos + len + fs.BlockSize() - 1) / fs.BlockSize();
  }

  /** A turn that stops inside a block of pointers. */
  lemma ShortTurn(fs: Fs, inode: Inode, pos: nat, len: nat, i: nat)
    requires pos / fs.BlockSize() <= i < BlockCnt(fs.BlockSize(), pos, len)
    ensures Walk(fs, inode, i) == Err(ShortRead) ==> ShortIn(fs, inode, pos, len)
  {
    hide Walk;
  }

  lemma ReadLength(fs: Fs, inode: Inode, pos: nat, len: nat)
    ensures var r := Read(fs, inode, pos, len); r.Ok? ==> |r.value| == len
  {
  }

  lemma AtStart(bs: nat, pos: nat, len: nat)
    requires 0 < bs
    ensures At(bs, pos, len, pos / bs) == pos
  {
  }
}
