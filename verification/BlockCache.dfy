/** The two one-entry caches of indirect blocks (loader/ext2fs.c:182-187, 272-424, 901-913). */
module BlockCache {
  import opened Bytes
  import opened Partition
  import opened BlockMap

  const NO_KEY := WORD - 1  // -1 as the unsigned sector it is compared with

  /** A cache buffer: not allocated, allocated without a key, or holding a block. */
  datatype Entry = Empty | Blank(size: nat) | Holding(key: nat, bytes: seq<byte>) {
    function Size(): nat {
      match this
      case Empty => 0
      case Blank(n) => n
      case Holding(_, s) => |s|
    }
  }

  /** Entry e agrees with the volume: its bytes are the ones on disk at its key. */
  ghost predicate Agrees(e: Entry, v: Cells) {
    e.Holding? ==> VolRead(v, e.key, 0, |e.bytes|) == Ok(e.bytes)
  }

  /** The buffer after making it bs bytes large; mem says whether malloc has room. */
  function Sized(e: Entry, bs: nat, mem: bool): Entry {
    if !e.Empty? && e.Size() == bs then e
    else if mem then Blank(bs)
    else Empty
  }

  /** One lookup through a buffer. A short read overwrites the front of the
      buffer and leaves its key. */
  function Fetch(e: Entry, v: Cells, sector: nat, bs: nat, mem: bool): (f: (Entry, Result<seq<byte>>))
    ensures f.1.Ok? ==> |f.1.value| == bs
  {
    var s := Sized(e, bs, mem);
    if s.Empty? then (s, Err(NoMem))
    else if s.Holding? && s.key == sector then (s, Ok(s.bytes))
    else
      match VolRead(v, sector, 0, bs)
      case Ok(bytes) => (Holding(sector, bytes), Ok(bytes))
      case Err(err) =>
        (if err == ShortRead && s.Holding? then Holding(s.key, Put(s.bytes, 0, Delivered(v, sector, 0, bs))) else s,
         Err(err))
  }

  datatype Cache = Cache(one: Entry, two: Entry)

  ghost predicate Coherent(c: Cache, v: Cells) {
    Agrees(c.one, v) && Agrees(c.two, v)
  }

  /** A call of ext2fs_read_block; mem1 and mem2 say whether malloc has room for each buffer. */
  datatype Request = Request(fs: Fs, inode: Inode, fb: nat, mem1: bool, mem2: bool) {
    function Uncached(): Result<nat> { Walk(fs, inode, fb) }
  }

  function SingleStep(c: Cache, q: Request): (Cache, Result<nat>)
    requires DIRECT <= q.fb < DIRECT + q.fs.PerBlock()
  {
    var (one, r) := Fetch(c.one, q.fs.cells, q.fs.Sector(q.inode.Ptr(12)), q.fs.BlockSize(), q.mem1);
    (Cache(one, c.two), if r.Err? then Err(r.error) else Ok(Le32(r.value, 4 * (q.fb - DIRECT))))
  }

  function DoubleStep(c: Cache, q: Request): (Cache, Result<nat>)
    requires var p := q.fs.PerBlock(); DIRECT + p <= q.fb < DIRECT + p * (p + 1)
  {
    var p, bs := q.fs.PerBlock(), q.fs.BlockSize();
    var rblock := q.fb - (DIRECT + p);
    DoubleIndices(p, q.fb);
    var (one, r) := Fetch(c.one, q.fs.cells, q.fs.Sector(q.inode.Ptr(13)), bs, q.mem1);
    if r.Err? then (Cache(one, c.two), Err(r.error))
    else
      var (two, t) := Fetch(c.two, q.fs.cells, q.fs.Sector(Le32(r.value, 4 * (rblock / p))), bs, q.mem2);
      (Cache(one, two), if t.Err? then Err(t.error) else Ok(Le32(t.value, 4 * (rblock % p))))
  }

  function ReadBlockStep(c: Cache, q: Request): (Cache, Result<nat>) {
    var p := q.fs.PerBlock();
    if q.fb < DIRECT then (c, Ok(q.inode.Ptr(q.fb)))
    else if q.fb < DIRECT + p then SingleStep(c, q)
    else if q.fb < DIRECT + p * (p + 1) then DoubleStep(c, q)
    else (c, Err(Corrupt))
  }

  /** Looking up a sector in e spoils the block kept there: the device stops short,
      and what came across is not what the front of that block was. */
  predicate Torn(e: Entry, v: Cells, sector: nat, bs: nat) {
    && e.Holding? && |e.bytes| == bs && e.key != sector
    && VolRead(v, sector, 0, bs) == Err(ShortRead)
    && !(Delivered(v, sector, 0, bs) <= e.bytes)
  }

  /** A lookup through an agreeing buffer returns what is on disk. Afterwards the
      buffer still agrees unless a short read changed the block it kept: that is
      the one way to lose agreement. */
  lemma FetchIsRead(e: Entry, v: Cells, sector: nat, bs: nat, mem: bool)
    requires Agrees(e, v)
    ensures Answers(e, v, sector, bs, mem)
    ensures Agrees(Fetch(e, v, sector, bs, mem).0, v) <==> !Torn(e, v, sector, bs)
  {
    var (e', r) := Fetch(e, v, sector, bs, mem);
    if r == Err(ShortRead) && e.Holding? && |e.bytes| == bs {
      var torn := Delivered(v, sector, 0, bs);
      assert e'.bytes == Put(e.bytes, 0, torn);
      assert torn <= e.bytes <==> e'.bytes == e.bytes by {
        assert e'.bytes[..|torn|] == torn;
        if torn <= e.bytes { assert e'.bytes == e.bytes; }
      }
    }
  }

  /** The lookup gives what is on disk, or malloc failed. */
  ghost predicate Answers(e: Entry, v: Cells, sector: nat, bs: nat, mem: bool) {
    var r := Fetch(e, v, sector, bs, mem).1;
    r == VolRead(v, sector, 0, bs) || (!mem && r == Err(NoMem))
  }

  /** The device delivers every block of the volume whole or not at all; it may
      well fail in the middle of the volume. */
  ghost predicate WholeBlocks(fs: Fs) {
    forall blk: nat :: fs.Block(blk) == Err(ShortRead) ==> Delivered(fs.cells, fs.Sector(blk), 0, fs.BlockSize()) == []
  }

  lemma WholeNeverTorn(e: Entry, fs: Fs, blk: nat)
    requires WholeBlocks(fs)
    ensures !Torn(e, fs.cells, fs.Sector(blk), fs.BlockSize())
  {
    hide VolRead, Delivered;
    assert fs.Block(blk) == Err(ShortRead) ==> Delivered(fs.cells, fs.Sector(blk), 0, fs.BlockSize()) == [];
  }

  /** The lookups of a call spoil a block that is kept. */
  predicate Tears(c: Cache, q: Request) {
    var p, bs, v := q.fs.PerBlock(), q.fs.BlockSize(), q.fs.cells;
    if q.fb < DIRECT then false
    else if q.fb < DIRECT + p then Torn(c.one, v, q.fs.Sector(q.inode.Ptr(12)), bs)
    else if q.fb < DIRECT + p * (p + 1) then
      var outer := q.fs.Sector(q.inode.Ptr(13));
      DoubleIndices(p, q.fb);
      var r := Fetch(c.one, v, outer, bs, q.mem1).1;
      || Torn(c.one, v, outer, bs)
      || (r.Ok? && Torn(c.two, v, q.fs.Sector(Le32(r.value, 4 * ((q.fb - (DIRECT + p)) / p))), bs))
    else false
  }

  /** What a call in one partition has to give: the uncached answer, or a failed
      malloc, and coherent caches unless it tore one, which the answer then shows. */
  ghost predicate RightStep(c: Cache, q: Request, out: (Cache, Result<nat>)) {
    && (out.1 == q.Uncached() || (!(q.mem1 && q.mem2) && out.1 == Err(NoMem)))
    && (Coherent(out.0, q.fs.cells) <==> !Tears(c, q))
    && (Tears(c, q) ==> out.1 == q.Uncached() == Err(ShortRead) && !WholeBlocks(q.fs))
  }

  lemma WalkDouble(q: Request)
    requires var p := q.fs.PerBlock(); DIRECT + p <= q.fb < DIRECT + p * (p + 1)
    ensures var p := q.fs.PerBlock();
            var rblock := q.fb - (DIRECT + p);
            && 0 <= rblock / p < p && 4 * (rblock % p) + 4 <= q.fs.BlockSize()
            && q.Uncached() ==
               (var outer :- q.fs.Block(q.inode.Ptr(13));
                var inner :- q.fs.Block(Le32(outer, 4 * (rblock / p)));
                Ok(Le32(inner, 4 * (rblock % p))))
  {
    hide VolRead, Le32;
    DoubleIndices(q.fs.PerBlock(), q.fb);
  }

  lemma DoubleStepIsWalk(c: Cache, q: Request)
    requires Coherent(c, q.fs.cells)
    requires var p := q.fs.PerBlock(); DIRECT + p <= q.fb < DIRECT + p * (p + 1)
    ensures RightStep(c, q, DoubleStep(c, q))
  {
    hide Fetch, VolRead, Agrees, WholeBlocks, Walk, Le32, Torn;
    var p, bs, v := q.fs.PerBlock(), q.fs.BlockSize(), q.fs.cells;
    WalkDouble(q);
    var outer := q.inode.Ptr(13);
    FetchRight(c.one, q.fs, outer, q.mem1);
    var r := Fetch(c.one, v, q.fs.Sector(outer), bs, q.mem1).1;
    if r.Ok? {
      FetchRight(c.two, q.fs, Le32(r.value, 4 * ((q.fb - (DIRECT + p)) / p)), q.mem2);
    }
  }

  lemma FetchRight(e: Entry, fs: Fs, blk: nat, mem: bool)
    requires Agrees(e, fs.cells)
    ensures var v, sector, bs := fs.cells, fs.Sector(blk), fs.BlockSize();
            && Answers(e, v, sector, bs, mem)
            && (Agrees(Fetch(e, v, sector, bs, mem).0, v) <==> !Torn(e, v, sector, bs))
            && (Torn(e, v, sector, bs) ==>
                  Fetch(e, v, sector, bs, mem).1 == VolRead(v, sector, 0, bs) == Err(ShortRead) && !WholeBlocks(fs))
  {
    FetchIsRead(e, fs.cells, fs.Sector(blk), fs.BlockSize(), mem);
    if WholeBlocks(fs) {
      WholeNeverTorn(e, fs, blk);
    }
  }

  /** ext2fs_read_block gives the block number that walking the disk gives. */
  lemma StepIsWalk(c: Cache, q: Request)
    requires Coherent(c, q.fs.cells)
    ensures RightStep(c, q, ReadBlockStep(c, q))
  {
    hide Fetch, VolRead, Agrees, WholeBlocks, Torn;
    var p := q.fs.PerBlock();
    if DIRECT <= q.fb < DIRECT + p {
      FetchRight(c.one, q.fs, q.inode.Ptr(12), q.mem1);
    } else if DIRECT + p <= q.fb < DIRECT + p * (p + 1) {
      DoubleStepIsWalk(c, q);
    }
  }

  /** The results of a run of calls. */
  function Run(c: Cache, qs: seq<Request>): (rs: seq<Result<nat>>)
    ensures |rs| == |qs|
    decreases |qs|
  {
    if qs == [] then [] else var (c', r) := ReadBlockStep(c, qs[0]); [r] + Run(c', qs[1..])
  }

  /** No lookup of the first n calls spoils a block. */
  ghost predicate Untorn(c: Cache, qs: seq<Request>, n: nat)
    requires n <= |qs|
    decreases n
  {
    n == 0 || (!Tears(c, qs[0]) && Untorn(ReadBlockStep(c, qs[0]).0, qs[1..], n - 1))
  }

  /** Main result: over every run of calls on one partition, whatever inodes,
      block sizes and kinds of indirection they mix, and whichever of them fail,
      each result is that of an uncached walk until a lookup has torn a block. If
      the device delivers blocks whole or not at all, that never happens. */
  lemma {:induction false} RunIsWalks(c: Cache, v: Cells, qs: seq<Request>, i: nat)
    requires Coherent(c, v) && forall q :: q in qs ==> q.fs.cells == v
    requires i < |qs| && ((forall q :: q in qs ==> WholeBlocks(q.fs)) || Untorn(c, qs, i))
    ensures var r := Run(c, qs)[i];
            r == qs[i].Uncached() || (!(qs[i].mem1 && qs[i].mem2) && r == Err(NoMem))
    decreases |qs|
  {
    hide Tears, WholeBlocks, ReadBlockStep, Coherent;
    StepIsWalk(c, qs[0]);
    var (c', r) := ReadBlockStep(c, qs[0]);
    var rest := Run(c', qs[1..]);
    assert Run(c, qs) == [r] + rest;
    assert RightStep(c, qs[0], (c', r));
    if i > 0 {
      RunIsWalks(c', v, qs[1..], i - 1);
    }
  }

  /** The caches are keyed by sector alone. A block kept from anywhere answers
      rightly for volume w unless key and size hit and w holds other bytes there;
      so it answers every lookup rightly exactly when it agrees with w. */
  lemma OtherPartition(e: Entry, w: Cells)
    ensures forall sector: nat, bs: nat, mem: bool :: Answers(e, w, sector, bs, mem)
              <==> !(e.Holding? && e.key == sector && |e.bytes| == bs && VolRead(w, sector, 0, bs) != Ok(e.bytes))
    ensures Agrees(e, w) <==> forall sector: nat, bs: nat, mem: bool :: Answers(e, w, sector, bs, mem)
  {
    if e.Holding? && !Agrees(e, w) {
      assert !Answers(e, w, e.key, |e.bytes|, true);
    }
  }

  /** After a short read of another block, the block still kept under the old key
      is wrong exactly when the bytes that came across differ from it. */
  lemma TornEntry(v: Cells, kept: nat, other: nat, bs: nat)
    requires VolRead(v, kept, 0, bs).Ok? && kept != other
    requires VolRead(v, other, 0, bs) == Err(ShortRead)
    ensures var e := Fetch(Empty, v, kept, bs, true).0;
            var e' := Fetch(e, v, other, bs, true).0;
            Fetch(e', v, kept, bs, true).1 == VolRead(v, kept, 0, bs)
            <==> Delivered(v, other, 0, bs) <= VolRead(v, kept, 0, bs).value
  {
    var e := Fetch(Empty, v, kept, bs, true).0;
    FetchIsRead(e, v, other, bs, true);
  }

  /** The key -1 stands for no key because a sector is a multiple of two. */
  lemma KeyNeverSentinel(fs: Fs, blk: nat)
    ensures fs.Sector(blk) % 2 == 0 && fs.Sector(blk) != NO_KEY
  {
    var half := fs.Spb() / 2;
    assert blk * fs.Spb() == 2 * (blk * half);
    var q := blk * fs.Spb() / WORD;
    assert fs.Sector(blk) == 2 * (blk * half) - q * WORD;
  }

  /** One of the two buffers: indirN_block, indirN_size and indirN_blkno. */
  class Buffer {
    var block: array?<byte>
    var blkno: nat

    ghost predicate Valid()
      reads this
    {
      block == null ==> blkno == NO_KEY
    }

    ghost function Abs(): Entry
      reads this, block
    {
      if block == null then Empty
      else if blkno == NO_KEY then Blank(block.Length)
      else Holding(blkno, block[..])
    }

    constructor ()
      ensures Valid() && Abs() == Empty && block == null
    {
      block, blkno := null, NO_KEY;
    }

    /** The part of ext2fs_close that drops this buffer. */
    method Drop()
      modifies this
      ensures Valid() && Abs() == Empty && block == null
    {
      if block != null {
        block, blkno := null, NO_KEY;
      } else {
        blkno := NO_KEY;
      }
    }

    /** Allocate the buffer, again when the block size changed. */
    method Fit(bs: nat, mem: bool) returns (ok: bool)
      requires Valid()
      modifies this
      ensures Valid() && (block == old(block) || block == null || fresh(block))
      ensures Abs() == Sized(old(Abs()), bs, mem)
      ensures ok == (block != null) && (ok ==> block.Length == bs)
    {
      if block == null {
        if !mem {
          return false;
        }
        block, blkno := new byte[bs], NO_KEY;
      }
      if bs != block.Length {
        block, blkno := null, NO_KEY;
        if !mem {
          return false;
        }
        block := new byte[bs];
      }
      return true;
    }

    /** Bring the block at a sector into the buffer unless it is there. */
    method Load(part: Part, sector: nat, bs: nat, mem: bool) returns (r: Result<()>)
      requires Valid() && sector != NO_KEY
      modifies this, block
      ensures Valid() && (block == old(block) || block == null || fresh(block))
      ensures var f := Fetch(old(Abs()), View(part), sector, bs, mem);
              && Abs() == f.0
              && (r.Ok? <==> f.1.Ok?) && (r.Err? ==> r.error == f.1.error)
              && (r.Ok? ==> block != null && block[..] == f.1.value)
    {
      hide View, Transferred, Values, Readable, Sized;
      var ok := Fit(bs, mem);
      if !ok {
        return Err(NoMem);
      }
      if sector != blkno {
        var read := PartRead(part, sector, 0, bs, block, 0);
        if read.Err? {
          return Err(read.error);
        }
        blkno := sector;
      }
      return Ok(());
    }
  }
}
