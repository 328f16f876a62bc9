/** Directories and symbolic links as files (loader/ext2fs.c:498-686), without caches and buffers. */
module Directory {
  import opened Arithmetic
  import opened Bytes
  import opened BlockMap
  import opened FileData

  datatype Kind = Unknown | Regular | Directory | Symlink

  /** struct ext2fs_node: loaded is Some when inode_read is set. */
  datatype Node = Node(ino: nat, loaded: Option<Inode>)

  datatype Found = Found(node: Node, kind: Kind)

  /** The inode a node stands for. */
  function NodeInode(fs: Fs, node: Node): Result<Inode> {
    if node.loaded.Some? then Ok(node.loaded.value) else ReadInode(fs, node.ino)
  }

  /** A loaded inode is the one on disk. */
  ghost predicate Faithful(fs: Fs, node: Node) {
    node.loaded.Some? ==> ReadInode(fs, node.ino) == Ok(node.loaded.value)
  }

  /** The filetype byte of a record. */
  function DirentKind(filetype: byte): Kind {
    if filetype == 2 then Directory else if filetype == 7 then Symlink
    else if filetype == 1 then Regular else Unknown
  }

  /** mode & 0170000. */
  function ModeKind(mode: nat): Kind {
    var f := mode / 0x1000 % 16;
    if f == 4 then Directory else if f == 10 then Symlink else if f == 8 then Regular else Unknown
  }

  /** What a record names; without a file type in the record, the inode tells it. */
  function RecordNode(fs: Fs, ino: nat, filetype: byte): Result<Found> {
    if filetype != 0 then Ok(Found(Node(ino, None), DirentKind(filetype)))
    else
      var inode :- ReadInode(fs, ino);
      Ok(Found(Node(ino, Some(inode)), ModeKind(inode.mode)))
  }

  /** Reading len bytes into a C buffer of cap bytes. It is Undefined when the
      file is too short to fill the first len bytes, a hole in the last block is
      zeroed past the buffer, or the 32-bit sum of position and sizes would wrap. */
  function ReadInto(fs: Fs, inode: Inode, pos: nat, len: nat, cap: nat): (r: Result<seq<byte>>)
    ensures r.Ok? ==> |r.value| == len
  {
    if inode.size < len || cap < Reach(fs, inode, pos, len) || WORD < pos + len + fs.BlockSize() then Err(Undefined)
    else Read(fs, inode, pos, len)
  }

  /** The record chain of a directory from byte at on. A record of length zero
      is Undefined: the loader would stay on it forever. */
  function Scan(fs: Fs, dir: Inode, name: seq<byte>, at: nat): Result<Found>
    decreases dir.size - at
  {
    if dir.size <= at then Err(NotFound)
    else
      var h :- ReadInto(fs, dir, at, 8, 8);
      var hit :- ScanRecord(fs, dir, name, at, h);
      if hit.Some? then Ok(hit.value)
      else if Le16(h, 4) == 0 || WORD <= at + Le16(h, 4) then Err(Undefined)
      else Scan(fs, dir, name, at + Le16(h, 4))
  }

  /** One record with header h: its node if it carries the name. */
  function ScanRecord(fs: Fs, dir: Inode, name: seq<byte>, at: nat, h: seq<byte>): Result<Option<Found>>
    requires |h| == 8
  {
    if h[6] == 0 then Ok(None)
    else
      var raw :- ReadInto(fs, dir, at + 8, h[6], (h[6] as int) + 1);
      var f :- RecordNode(fs, Le32(h, 0), h[7]);
      Ok(if CStr(raw) == name then Some(f) else None)
  }

  /** ext2fs_iterate_dir looking for a name. */
  function Lookup(fs: Fs, dir: Node, name: seq<byte>): Result<Found> {
    var inode :- NodeInode(fs, dir);
    Scan(fs, inode, name, 0)
  }

  /** ext2fs_read_symlink. */
  function LinkText(fs: Fs, node: Node): (r: Result<seq<byte>>)
    ensures r.Ok? ==> 0 !in r.value
  {
    var inode :- NodeInode(fs, node);
    if inode.size <= 60 then Ok(CStr(inode.b[..inode.size]))
    else
      var raw :- ReadInto(fs, inode, 0, inode.size, inode.size + 1);
      Ok(CStr(raw))
  }

  /** A lookup fails because the device stops inside a block of pointers. */
  ghost predicate LookupShort(fs: Fs, dir: Node, name: seq<byte>) {
    var inode := NodeInode(fs, dir);
    inode.Ok? && ScanShort(fs, inode.value, name, 0)
  }

  /** The read with which a scan fails needs such a block. */
  ghost predicate ScanShort(fs: Fs, dir: Inode, name: seq<byte>, at: nat)
    decreases dir.size - at
  {
    at < dir.size &&
    var h := ReadInto(fs, dir, at, 8, 8);
    if h.Err? then h.error == ShortRead && ShortIn(fs, dir, at, 8)
    else
      var hit := ScanRecord(fs, dir, name, at, h.value);
      if hit.Err? then h.value[6] != 0 && NameShort(fs, dir, at + 8, h.value[6])
      else hit.value.None? && 0 < Le16(h.value, 4) && at + Le16(h.value, 4) < WORD
           && ScanShort(fs, dir, name, at + Le16(h.value, 4))
  }

  ghost predicate NameShort(fs: Fs, dir: Inode, at: nat, n: byte) {
    ReadInto(fs, dir, at, n, (n as int) + 1) == Err(ShortRead) && ShortIn(fs, dir, at, n)
  }

  /** The scan at one record. */
  lemma ScanUnroll(fs: Fs, dir: Inode, name: seq<byte>, at: nat)
    requires at < dir.size
    ensures var h := ReadInto(fs, dir, at, 8, 8);
            && (h.Err? ==> Scan(fs, dir, name, at) == Err(h.error))
            && (h == Err(ShortRead) && ShortIn(fs, dir, at, 8) ==> ScanShort(fs, dir, name, at))
    ensures var h := ReadInto(fs, dir, at, 8, 8);
            h.Ok? ==>
              var hit, next := ScanRecord(fs, dir, name, at, h.value), at + Le16(h.value, 4);
              && (hit.Err? ==> Scan(fs, dir, name, at) == Err(hit.error))
              && (hit.Err? && h.value[6] != 0 && NameShort(fs, dir, at + 8, h.value[6]) ==>
                    ScanShort(fs, dir, name, at))
              && (hit.Ok? && hit.value.Some? ==> Scan(fs, dir, name, at) == Ok(hit.value.value))
              && (hit.Ok? && hit.value.None? ==>
                    if at < next < WORD then
                      && Scan(fs, dir, name, at) == Scan(fs, dir, name, next)
                      && (ScanShort(fs, dir, name, next) ==> ScanShort(fs, dir, name, at))
                    else Scan(fs, dir, name, at) == Err(Undefined))
  {
    hide ReadInto, ScanRecord, ShortIn, NameShort;
  }

  lemma ScanDone(fs: Fs, dir: Inode, name: seq<byte>, at: nat)
    requires dir.size <= at
    ensures Scan(fs, dir, name, at) == Err(NotFound)
  {
  }

  /** So does reading a link. */
  ghost predicate LinkShort(fs: Fs, link: Node) {
    var inode := NodeInode(fs, link);
    inode.Ok? && 60 < inode.value.size && LinkText(fs, link) == Err(ShortRead)
    && ShortIn(fs, inode.value, 0, inode.value.size)
  }

  /** When ReadInto is undefined. */
  lemma IntoDefined(fs: Fs, inode: Inode, pos: nat, len: nat, cap: nat)
    ensures ReadInto(fs, inode, pos, len, cap) == Err(Undefined)
            <==> inode.size < len || cap < Reach(fs, inode, pos, len) || WORD < pos + len + fs.BlockSize()
  {
    hide ReadFrom, Reach, Piece;
    ReadError(fs, inode, pos, pos + len);
    PieceError(fs, inode, pos / fs.BlockSize(), pos % fs.BlockSize(), 0);
  }

  /** The text of a link fits into the memory the loader takes for it. */
  predicate LinkFits(fs: Fs, inode: Inode) {
    60 < inode.size ==>
      Reach(fs, inode, 0, inode.size) <= inode.size + 1 && inode.size + fs.BlockSize() <= WORD
  }

  /** When reading a link is undefined. */
  lemma LinkDefined(fs: Fs, link: Node)
    ensures LinkText(fs, link) == Err(Undefined)
            <==> match NodeInode(fs, link) case Err(e) => e == Undefined case Ok(inode) => !LinkFits(fs, inode)
  {
    hide ReadInto, Reach, NodeInode, CStr;
    var inode := NodeInode(fs, link);
    if inode.Ok? {
      IntoDefined(fs, inode.value, 0, inode.value.size, inode.value.size + 1);
    }
  }

  /** Lookups leave nodes that agree with the disk; a name with a NUL is never found. */
  lemma {:induction false} ScanFaithful(fs: Fs, dir: Inode, name: seq<byte>, at: nat)
    ensures var r := Scan(fs, dir, name, at); r.Ok? ==> Faithful(fs, r.value.node) && 0 !in name
    decreases dir.size - at
  {
    hide ReadInto, ReadInode, ModeKind, DirentKind;
    if at < dir.size {
      var h := ReadInto(fs, dir, at, 8, 8);
      if h.Ok? && 0 < Le16(h.value, 4) && at + Le16(h.value, 4) < WORD {
        ScanFaithful(fs, dir, name, at + Le16(h.value, 4));
      }
    }
  }

  /** A directory record as written by mke2fs and the kernel. */
  datatype Dirent = Dirent(ino: nat, filetype: byte, name: seq<byte>, pad: seq<byte>) {
    ghost predicate Valid() {
      ino < WORD && |name| < 256 && 8 + |name| + |pad| < 0x1_0000
    }

    function Encode(): (s: seq<byte>)
      requires Valid()
      ensures |s| == 8 + |name| + |pad|
    {
      Header() + name + pad
    }

    function Header(): (h: seq<byte>)
      requires Valid()
      ensures |h| == 8
    {
      var len := 8 + |name| + |pad|;
      [ino % 256, ino / 0x100 % 256, ino / 0x1_0000 % 256, ino / 0x100_0000,
       len % 256, len / 256, |name|, filetype]
    }

    lemma HeaderDecodes()
      requires Valid()
      ensures var h := Header();
              Le32(h, 0) == ino && Le16(h, 4) == |Encode()| && h[6] == |name| && h[7] == filetype
    {
      var h, len := Header(), 8 + |name| + |pad|;
      assert Le16(h, 4) == len % 256 + 256 * (len / 256);
      assert Le16(h, 0) == ino % 256 + 256 * (ino / 0x100 % 256);
      assert Le16(h, 2) == ino / 0x1_0000 % 256 + 256 * (ino / 0x100_0000);
      FourBytes(ino);
    }
  }

  function EncodeDir(es: seq<Dirent>): seq<byte>
    requires forall e :: e in es ==> e.Valid()
  {
    if es == [] then [] else es[0].Encode() + EncodeDir(es[1..])
  }

  /** Reference for the scan: the first record with a nonempty name that, as a C
      string, is the one sought. */
  function FirstNamed(fs: Fs, es: seq<Dirent>, name: seq<byte>): Result<Found> {
    if es == [] then Err(NotFound)
    else if es[0].name == [] then FirstNamed(fs, es[1..], name)
    else
      var f :- RecordNode(fs, es[0].ino, es[0].filetype);
      if CStr(es[0].name) == name then Ok(f) else FirstNamed(fs, es[1..], name)
  }

  /** The last of n bytes from at on does not lie in a hole. */
  predicate EndsStored(fs: Fs, inode: Inode, at: nat, n: nat)
    requires 0 < n
  {
    !IsHole(fs, inode, (at + n - 1) / fs.BlockSize())
  }

  /** Header and name of the record at a position end in blocks that are stored. */
  predicate RecordStored(fs: Fs, dir: Inode, e: Dirent, at: nat) {
    EndsStored(fs, dir, at, 8) && (e.name != [] ==> EndsStored(fs, dir, at + 8, |e.name|))
  }

  /** So do those of every record of the chain; padding may lie in holes. */
  ghost predicate Stored(fs: Fs, dir: Inode, es: seq<Dirent>, at: nat)
    requires forall e :: e in es ==> e.Valid()
  {
    es != [] ==> RecordStored(fs, dir, es[0], at) && Stored(fs, dir, es[1..], at + |es[0].Encode()|)
  }

  /** Bytes the file holds come out of ReadInto, for any buffer they fit in. */
  lemma HeldReadInto(fs: Fs, inode: Inode, pos: nat, s: seq<byte>, cap: nat)
    requires Holds(fs, inode, pos, s)
    requires 0 < |s| <= cap && pos + |s| <= inode.size && inode.size + fs.BlockSize() <= WORD
    requires EndsStored(fs, inode, pos, |s|)
    ensures ReadInto(fs, inode, pos, |s|, cap) == Ok(s)
  {
    hide IsHole, Reach;
    ReachFits(fs, inode, pos, |s|);
    HeldIsRead(fs, inode, pos, s);
  }

  /** What the scan makes of a record. */
  function Match(fs: Fs, e: Dirent, name: seq<byte>): Result<Option<Found>> {
    if e.name == [] then Ok(None)
    else
      var f :- RecordNode(fs, e.ino, e.filetype);
      Ok(if CStr(e.name) == name then Some(f) else None)
  }

  lemma RecordIsRead(fs: Fs, dir: Inode, e: Dirent, rest: seq<byte>, name: seq<byte>, at: nat)
    requires e.Valid() && RecordStored(fs, dir, e, at) && dir.size + fs.BlockSize() <= WORD
    requires Holds(fs, dir, at, e.Encode() + rest) && at + |e.Encode()| + |rest| == dir.size
    ensures ReadInto(fs, dir, at, 8, 8) == Ok(e.Header())
    ensures ScanRecord(fs, dir, name, at, e.Header()) == Match(fs, e, name)
    ensures Holds(fs, dir, at + |e.Encode()|, rest)
  {
    hide Holds, EndsStored, ReadInto, RecordNode, CStr;
    HoldsJoin(fs, dir, at, e.Encode(), rest);
    HoldsJoin(fs, dir, at, e.Header() + e.name, e.pad);
    HoldsJoin(fs, dir, at, e.Header(), e.name);
    e.HeaderDecodes();
    HeldReadInto(fs, dir, at, e.Header(), 8);
    if e.name != [] {
      HeldReadInto(fs, dir, at + 8, e.name, |e.name| + 1);
    }
  }

  lemma ScanStep(fs: Fs, dir: Inode, name: seq<byte>, at: nat, h: seq<byte>)
    requires at < dir.size && |h| == 8 && ReadInto(fs, dir, at, 8, 8) == Ok(h)
    requires 0 < Le16(h, 4) && at + Le16(h, 4) < WORD
    ensures Scan(fs, dir, name, at) ==
            (var hit :- ScanRecord(fs, dir, name, at, h);
             if hit.Some? then Ok(hit.value) else Scan(fs, dir, name, at + Le16(h, 4)))
  {
    hide ReadInto, ScanRecord;
  }

  lemma ScanOne(fs: Fs, dir: Inode, e: Dirent, rest: seq<byte>, name: seq<byte>, at: nat)
    requires e.Valid() && RecordStored(fs, dir, e, at) && dir.size + fs.BlockSize() <= WORD
    requires Holds(fs, dir, at, e.Encode() + rest) && at + |e.Encode()| + |rest| == dir.size
    ensures Scan(fs, dir, name, at) ==
            (var hit :- Match(fs, e, name);
             if hit.Some? then Ok(hit.value) else Scan(fs, dir, name, at + |e.Encode()|))
  {
    hide ReadInto, ScanRecord, Match, Scan, Holds, RecordStored, Le32;
    RecordIsRead(fs, dir, e, rest, name, at);
    e.HeaderDecodes();
    ScanStep(fs, dir, name, at, e.Header());
  }

  /** Main result: on a record chain that fills the directory, in any block
      layout, the scan ends with the first record that has the name. */
  lemma {:induction false} ScanIsFirst(fs: Fs, dir: Inode, es: seq<Dirent>, name: seq<byte>, at: nat)
    requires forall e :: e in es ==> e.Valid()
    requires Stored(fs, dir, es, at) && dir.size + fs.BlockSize() <= WORD
    requires Holds(fs, dir, at, EncodeDir(es)) && at + |EncodeDir(es)| == dir.size
    ensures Scan(fs, dir, name, at) == FirstNamed(fs, es, name)
    decreases |es|
  {
    hide ReadInto, ScanRecord, RecordNode, RecordStored, Holds;
    if es != [] {
      var e, rest := es[0], EncodeDir(es[1..]);
      ScanOne(fs, dir, e, rest, name, at);
      HoldsJoin(fs, dir, at, e.Encode(), rest);
      ScanIsFirst(fs, dir, es[1..], name, at + |e.Encode()|);
    }
  }

  /** As far as its headers can be read, the directory is this chain of records,
      and nothing that is read of it ends in a hole. */
  ghost predicate IsChain(fs: Fs, dir: Inode, es: seq<Dirent>, at: nat)
    requires forall e :: e in es ==> e.Valid()
    decreases |es|
  {
    if es == [] then at == dir.size
    else
      && RecordStored(fs, dir, es[0], at)
      && (AllReadable(fs, dir, at, at + 8) ==> Holds(fs, dir, at, es[0].Header()))
      && IsChain(fs, dir, es[1..], at + |es[0].Encode()|)
  }

  /** The records of a directory end where it does. */
  ghost predicate WellFormedDir(fs: Fs, dir: Inode) {
    dir.size + fs.BlockSize() <= WORD
    && exists es: seq<Dirent> :: (forall e :: e in es ==> e.Valid()) && IsChain(fs, dir, es, 0)
  }

  lemma {:induction false} ChainLength(fs: Fs, dir: Inode, es: seq<Dirent>, at: nat)
    requires (forall e :: e in es ==> e.Valid()) && IsChain(fs, dir, es, at)
    ensures at + |EncodeDir(es)| == dir.size
    decreases |es|
  {
    hide RecordStored, AllReadable, Holds;
    if es != [] {
      ChainLength(fs, dir, es[1..], at + |es[0].Encode()|);
    }
  }

  /** Directories as ScanIsFirst takes them are well formed. */
  lemma {:induction false} HeldIsChain(fs: Fs, dir: Inode, es: seq<Dirent>, at: nat)
    requires forall e :: e in es ==> e.Valid()
    requires Stored(fs, dir, es, at) && Holds(fs, dir, at, EncodeDir(es)) && at + |EncodeDir(es)| == dir.size
    ensures IsChain(fs, dir, es, at)
    decreases |es|
  {
    hide RecordStored, Holds;
    if es != [] {
      var e, rest := es[0], EncodeDir(es[1..]);
      HoldsJoin(fs, dir, at, e.Encode(), rest);
      HoldsJoin(fs, dir, at, e.Header() + e.name, e.pad);
      HoldsJoin(fs, dir, at, e.Header(), e.name);
      HeldIsChain(fs, dir, es[1..], at + |e.Encode()|);
    }
  }

  /** Where the bytes s are if they can be read, ReadInto gives s or an error of the device. */
  lemma IntoReads(fs: Fs, inode: Inode, pos: nat, s: seq<byte>, cap: nat)
    requires 0 < |s| <= cap && pos + |s| <= inode.size && inode.size + fs.BlockSize() <= WORD
    requires EndsStored(fs, inode, pos, |s|)
    ensures ReadInto(fs, inode, pos, |s|, cap) != Err(Undefined)
    ensures var r := ReadInto(fs, inode, pos, |s|, cap);
            (AllReadable(fs, inode, pos, pos + |s|) ==> Holds(fs, inode, pos, s)) && r.Ok? ==> r == Ok(s)
  {
    hide IsHole, Reach, ReadFrom, AllReadable, Holds;
    ReachFits(fs, inode, pos, |s|);
    IntoDefined(fs, inode, pos, |s|, cap);
    ReadIsBytes(fs, inode, pos, pos + |s|);
    if Holds(fs, inode, pos, s) {
      HeldIsRead(fs, inode, pos, s);
    }
  }

  lemma RecordDefined(fs: Fs, dir: Inode, e: Dirent, name: seq<byte>, at: nat)
    requires Geometry(fs) && e.Valid() && RecordStored(fs, dir, e, at)
    requires at + |e.Encode()| <= dir.size && dir.size + fs.BlockSize() <= WORD
    ensures ScanRecord(fs, dir, name, at, e.Header()) != Err(Undefined)
  {
    hide EndsStored, ReadInto, Le32, ReadInode, CStr;
    e.HeaderDecodes();
    if e.name != [] {
      IntoReads(fs, dir, at + 8, e.name, |e.name| + 1);
      InodeDefined(fs, Le32(e.Header(), 0));
    }
  }

  /** Scanning a chain of records ends, whatever name is sought and whatever part of
      the directory cannot be read. */
  lemma {:induction false} ScanEnds(fs: Fs, dir: Inode, es: seq<Dirent>, name: seq<byte>, at: nat)
    requires forall e :: e in es ==> e.Valid()
    requires Geometry(fs) && IsChain(fs, dir, es, at) && dir.size + fs.BlockSize() <= WORD
    ensures Scan(fs, dir, name, at) != Err(Undefined)
    decreases |es|
  {
    hide ReadInto, ScanRecord, Holds, AllReadable, EndsStored;
    if es != [] {
      var e := es[0];
      ChainLength(fs, dir, es, at);
      IntoReads(fs, dir, at, e.Header(), 8);
      e.HeaderDecodes();
      RecordDefined(fs, dir, e, name, at);
      ScanEnds(fs, dir, es[1..], name, at + |e.Encode()|);
    }
  }

  /** So a lookup ends in every directory that is well formed if it can be read at all. */
  lemma LookupEnds(fs: Fs, dir: Node, name: seq<byte>)
    requires Geometry(fs) && (NodeInode(fs, dir).Ok? ==> WellFormedDir(fs, NodeInode(fs, dir).value))
    ensures Lookup(fs, dir, name) != Err(Undefined)
  {
    hide Scan, ReadInode, IsChain;
    InodeDefined(fs, dir.ino);
    var inode := NodeInode(fs, dir);
    if inode.Ok? {
      var es: seq<Dirent> :| (forall e :: e in es ==> e.Valid()) && IsChain(fs, inode.value, es, 0);
      ScanEnds(fs, inode.value, es, name, 0);
    }
  }

  /** A record at which the scan ends: it has the name, or what it names has to be
      asked for its type and cannot be read. */
  predicate Stops(fs: Fs, e: Dirent, name: seq<byte>) {
    e.name != [] && (RecordNode(fs, e.ino, e.filetype).Err? || CStr(e.name) == name)
  }

  ghost predicate StopsFirst(fs: Fs, es: seq<Dirent>, i: nat, name: seq<byte>)
    requires i < |es|
  {
    Stops(fs, es[i], name) && forall j :: 0 <= j < i ==> !Stops(fs, es[j], name)
  }

  lemma RecordError(fs: Fs, ino: nat, filetype: byte)
    ensures RecordNode(fs, ino, filetype) != Err(NotFound)
  {
    InodeDefined(fs, ino);
    hide ReadInode, ModeKind, DirentKind;
  }

  /** The reference gives the node, or the error, of the first record that stops
      it, and not-found exactly when there is none. */
  lemma {:induction false} FirstNamedFinds(fs: Fs, es: seq<Dirent>, name: seq<byte>)
    ensures FirstNamed(fs, es, name) == Err(NotFound) <==> forall e :: e in es ==> !Stops(fs, e, name)
    ensures FirstNamed(fs, es, name) != Err(NotFound) ==>
              exists i :: 0 <= i < |es| && StopsFirst(fs, es, i, name)
                          && FirstNamed(fs, es, name) == RecordNode(fs, es[i].ino, es[i].filetype)
    decreases |es|
  {
    hide RecordNode, CStr;
    if es != [] {
      RecordError(fs, es[0].ino, es[0].filetype);
      FirstNamedFinds(fs, es[1..], name);
      assert es == [es[0]] + es[1..];
      var r := FirstNamed(fs, es, name);
      if Stops(fs, es[0], name) {
        assert StopsFirst(fs, es, 0, name);
      } else if r != Err(NotFound) {
        var i :| 0 <= i < |es[1..]| && StopsFirst(fs, es[1..], i, name)
              && r == RecordNode(fs, es[1..][i].ino, es[1..][i].filetype);
        forall j | 0 <= j < i + 1 ensures !Stops(fs, es[j], name) {
          if j > 0 { assert es[1..][j - 1] == es[j]; }
        }
        assert StopsFirst(fs, es, i + 1, name);
      }
    }
  }

  /** Record i is the first one with the name. */
  ghost predicate NamedFirst(es: seq<Dirent>, i: nat, name: seq<byte>)
    requires i < |es|
  {
    && es[i].name != [] && CStr(es[i].name) == name
    && forall j :: 0 <= j < i && es[j].name != [] ==> CStr(es[j].name) != name
  }

  /** Main result on what is found: on a chain whose first record with the name has
      type 1, 2 or 7, a file, a directory or a link with its inode number; with
      another type an unknown entry; without a type what the mode of its inode says. */
  lemma FoundKind(fs: Fs, dir: Inode, es: seq<Dirent>, name: seq<byte>, i: nat)
    requires forall e :: e in es ==> e.Valid()
    requires Stored(fs, dir, es, 0) && dir.size + fs.BlockSize() <= WORD
    requires Holds(fs, dir, 0, EncodeDir(es)) && |EncodeDir(es)| == dir.size
    requires i < |es| && NamedFirst(es, i, name)
    requires forall j :: 0 <= j < i && es[j].filetype == 0 ==> ReadInode(fs, es[j].ino).Ok?
    ensures var t, r := es[i].filetype, Scan(fs, dir, name, 0);
            && (t == 1 ==> r == Ok(Found(Node(es[i].ino, None), Regular)))
            && (t == 2 ==> r == Ok(Found(Node(es[i].ino, None), Directory)))
            && (t == 7 ==> r == Ok(Found(Node(es[i].ino, None), Symlink)))
            && (t !in {0, 1, 2, 7} ==> r == Ok(Found(Node(es[i].ino, None), Unknown)))
    ensures es[i].filetype == 0 ==>
              match ReadInode(fs, es[i].ino)
              case Err(e) => Scan(fs, dir, name, 0) == Err(e)
              case Ok(inode) =>
                var m := inode.mode;
                && (0x8000 <= m < 0x9000 ==> Scan(fs, dir, name, 0) == Ok(Found(Node(es[i].ino, Some(inode)), Regular)))
                && (0x4000 <= m < 0x5000 ==> Scan(fs, dir, name, 0) == Ok(Found(Node(es[i].ino, Some(inode)), Directory)))
                && (0xA000 <= m < 0xB000 ==> Scan(fs, dir, name, 0) == Ok(Found(Node(es[i].ino, Some(inode)), Symlink)))
  {
    hide Scan, Holds, Stored, ReadInode, CStr;
    ScanIsFirst(fs, dir, es, name, 0);
    FirstNamedIs(fs, es, name, i);
  }

  lemma FirstNamedIs(fs: Fs, es: seq<Dirent>, name: seq<byte>, i: nat)
    requires i < |es| && NamedFirst(es, i, name)
    requires forall j :: 0 <= j < i && es[j].filetype == 0 ==> ReadInode(fs, es[j].ino).Ok?
    ensures FirstNamed(fs, es, name) == RecordNode(fs, es[i].ino, es[i].filetype)
  {
    hide ReadInode, CStr, FirstNamed, ModeKind, DirentKind;
    FirstNamedFinds(fs, es, name);
    assert es[i] in es && Stops(fs, es[i], name);
    assert forall j :: 0 <= j < i ==> !Stops(fs, es[j], name);
    var k :| 0 <= k < |es| && StopsFirst(fs, es, k, name)
          && FirstNamed(fs, es, name) == RecordNode(fs, es[k].ino, es[k].filetype);
    assert k == i;
  }

  /** The records that are in use: a deleted name has inode 0. */
  function Live(es: seq<Dirent>): (ls: seq<Dirent>)
    ensures forall e :: e in ls <==> e in es && e.ino != 0
  {
    if es == [] then [] else (if es[0].ino != 0 then [es[0]] else []) + Live(es[1..])
  }

  /** The loader does not skip deleted names. Its answer is that of the names in use
      exactly when no deleted record is the first one to stop the scan, unless that
      record's type cannot be read. */
  lemma {:induction false} DeletedNames(fs: Fs, es: seq<Dirent>, name: seq<byte>)
    ensures (forall i :: 0 <= i < |es| && StopsFirst(fs, es, i, name) ==> es[i].ino != 0) ==>
              FirstNamed(fs, es, name) == FirstNamed(fs, Live(es), name)
    ensures (exists i :: 0 <= i < |es| && StopsFirst(fs, es, i, name) && es[i].ino == 0
                         && RecordNode(fs, 0, es[i].filetype).Ok?) ==>
              FirstNamed(fs, es, name) != FirstNamed(fs, Live(es), name)
    decreases |es|
  {
    hide Stops, RecordNode, FirstNamed, Live;
    LiveNodes(fs, es, name);
    LiveFirst(es);
    if es != [] {
      var e, rest := es[0], es[1..];
      DeletedNames(fs, rest, name);
      assert es == [e] + rest;
      FirstOn(fs, e, rest, name);
      FirstOn(fs, e, Live(rest), name);
      if Stops(fs, e, name) {
        assert StopsFirst(fs, es, 0, name);
        DeletedNode(fs, e.filetype);
      } else {
        forall i | 0 <= i < |rest| ensures StopsFirst(fs, rest, i, name) <==> StopsFirst(fs, es, i + 1, name) {
          StopsLater(fs, es, i, name);
        }
        assert [] + Live(rest) == Live(rest);
      }
    }
  }

  lemma LiveFirst(es: seq<Dirent>)
    ensures Live(es) == if es == [] then [] else (if es[0].ino != 0 then [es[0]] else []) + Live(es[1..])
  {
  }

  lemma DeletedNode(fs: Fs, filetype: byte)
    ensures var r := RecordNode(fs, 0, filetype); r.Ok? ==> r.value.node.ino == 0
  {
    hide ReadInode, ModeKind, DirentKind;
  }

  lemma FirstOn(fs: Fs, e: Dirent, rest: seq<Dirent>, name: seq<byte>)
    ensures FirstNamed(fs, [e] + rest, name) ==
            if Stops(fs, e, name) then RecordNode(fs, e.ino, e.filetype) else FirstNamed(fs, rest, name)
  {
    hide RecordNode, CStr;
    assert ([e] + rest)[1..] == rest;
  }

  lemma StopsLater(fs: Fs, es: seq<Dirent>, i: nat, name: seq<byte>)
    requires es != [] && !Stops(fs, es[0], name) && i < |es| - 1
    ensures StopsFirst(fs, es[1..], i, name) <==> StopsFirst(fs, es, i + 1, name)
  {
    hide Stops;
    assert forall j :: 0 <= j < i ==> es[1..][j] == es[j + 1];
    assert forall j :: 0 < j < i + 1 ==> es[j] == es[1..][j - 1];
  }

  /** Records in use never give inode 0. */
  lemma LiveNodes(fs: Fs, es: seq<Dirent>, name: seq<byte>)
    ensures var r := FirstNamed(fs, Live(es), name); r.Ok? ==> r.value.node.ino != 0
  {
    hide FirstNamed, Live, CStr, ReadInode, ModeKind, DirentKind;
    FirstNamedFinds(fs, Live(es), name);
  }
}
