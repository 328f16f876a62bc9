/** Finding and placing the image of a kernel (loader/elf.c:38-146). */
module Elf {
  import opened Bytes
  import Moves

  const MASK := 0x1000_0000        // one past ADDRMASK
  const IQUIK_BASE := 0x3e_0000
  const PT_LOAD := 1
  const EHDR_SIZE := 52
  const PHDR_SIZE := 32

  datatype Phdr = Phdr(ptype: nat, offset: nat, vaddr: nat, filesz: nat, memsz: nat) {
    /** The headers the loader looks at. */
    predicate Loadable() { ptype == PT_LOAD && offset != 0 }

    function End(): nat { offset + memsz }
  }

  function DecodePhdr(m: seq<byte>, a: nat): (p: Phdr)
    requires a + PHDR_SIZE <= |m|
    ensures p.offset < WORD && p.vaddr < WORD && p.memsz < WORD && p.filesz < WORD
  {
    Phdr(Be32(m, a), Be32(m, a + 4), Be32(m, a + 8), Be32(m, a + 16), Be32(m, a + 20))
  }

  /** The first n program headers from address a on. */
  function Phdrs(m: seq<byte>, a: nat, n: nat): (ps: seq<Phdr>)
    requires a + n * PHDR_SIZE <= |m|
    ensures |ps| == n
    decreases n
  {
    if n == 0 then [] else Phdrs(m, a, n - 1) + [DecodePhdr(m, a + (n - 1) * PHDR_SIZE)]
  }

  /** off, len and linked_base of the header loop. */
  datatype Span = Span(off: nat, len: nat, base: nat)

  function Extend(s: Span, p: Phdr): Span {
    if !p.Loadable() then s
    else if s.len == 0 then Span(p.offset, p.memsz, p.vaddr % MASK)
    else s.(len := (p.End() - s.off) % WORD)
  }

  function SpanOf(ps: seq<Phdr>): Span {
    if ps == [] then Span(0, 0, 0) else Extend(SpanOf(ps[..|ps| - 1]), ps[|ps| - 1])
  }

  lemma SpanOfNext(m: seq<byte>, a: nat, i: nat)
    requires a + (i + 1) * PHDR_SIZE <= |m|
    ensures SpanOf(Phdrs(m, a, i + 1)) == Extend(SpanOf(Phdrs(m, a, i)), DecodePhdr(m, a + i * PHDR_SIZE))
  {
    hide DecodePhdr, Extend;
    assert Phdrs(m, a, i + 1)[..i] == Phdrs(m, a, i);
  }

  lemma SpanOfNone(m: seq<byte>, a: nat)
    requires a <= |m|
    ensures SpanOf(Phdrs(m, a, 0)) == Span(0, 0, 0)
  {
  }

  /** load_state_t. */
  datatype Image = Image(buf: nat, linkedBase: nat, textOffset: nat, textLen: nat, entry: nat)

  /** The ELF header and the program headers lie in memory. */
  predicate HeadersFit(m: seq<byte>, buf: nat) {
    buf + EHDR_SIZE <= |m| && buf + Be32(m, buf + 28) + Be16(m, buf + 44) * PHDR_SIZE <= |m|
  }

  function HeadersOf(m: seq<byte>, buf: nat): seq<Phdr>
    requires HeadersFit(m, buf)
  {
    Phdrs(m, buf + Be32(m, buf + 28), Be16(m, buf + 44))
  }

  /** The first four bytes of an ELF file, and the class and byte order that are supported. */
  predicate HasMagic(m: seq<byte>, buf: nat)
    requires buf + 6 <= |m|
  {
    m[buf..buf + 4] == [0x7f, 'E' as int, 'L' as int, 'F' as int]
  }

  predicate IsSupported(m: seq<byte>, buf: nat)
    requires buf + 6 <= |m|
  {
    m[buf + 4] == 1 && m[buf + 5] == 2
  }

  /** What elf_parse reads lies in memory: headers only behind an identification
      that it accepts. */
  predicate Mapped(m: seq<byte>, buf: nat) {
    buf + 6 <= |m| && (HasMagic(m, buf) && IsSupported(m, buf) ==> HeadersFit(m, buf))
  }

  /** Reference for elf_parse. */
  function ParseImage(m: seq<byte>, buf: nat): Result<Image>
    requires Mapped(m, buf)
  {
    if !HasMagic(m, buf) then Err(NotElf)
    else if !IsSupported(m, buf) then Err(WrongElf)
    else
      var s := SpanOf(HeadersOf(m, buf));
      if s.len == 0 then Err(NotLoadable)
      else Ok(Image(buf, s.base, s.off, s.len, Be32(m, buf + 24) % MASK))
  }

  /** Header i of a file with its program headers at byte phoff of the image. */
  ghost predicate HeaderAt(m: seq<byte>, at: nat, p: Phdr) {
    && at + 32 <= |m| && p.ptype < WORD && p.offset < WORD && p.vaddr < WORD && p.filesz < WORD && p.memsz < WORD
    && m[at..at + 4] == BeBytes(p.ptype) && m[at + 4..at + 8] == BeBytes(p.offset)
    && m[at + 8..at + 12] == BeBytes(p.vaddr)
    && m[at + 16..at + 20] == BeBytes(p.filesz) && m[at + 20..at + 24] == BeBytes(p.memsz)
  }

  lemma HeaderIs(m: seq<byte>, at: nat, p: Phdr)
    requires HeaderAt(m, at, p)
    ensures DecodePhdr(m, at) == p
  {
    hide BeBytes, Be32;
    Be32At(m, at, p.ptype);
    Be32At(m, at + 4, p.offset);
    Be32At(m, at + 8, p.vaddr);
    Be32At(m, at + 16, p.filesz);
    Be32At(m, at + 20, p.memsz);
  }

  lemma {:induction false} HeadersAre(m: seq<byte>, a: nat, ps: seq<Phdr>)
    requires a + |ps| * 32 <= |m| && forall i :: 0 <= i < |ps| ==> HeaderAt(m, a + 32 * i, ps[i])
    ensures Phdrs(m, a, |ps|) == ps
    decreases |ps|
  {
    hide DecodePhdr, HeaderAt;
    if ps != [] {
      var n := |ps| - 1;
      HeadersAre(m, a, ps[..n]);
      HeaderIs(m, a + 32 * n, ps[n]);
      assert ps == ps[..n] + [ps[n]];
    }
  }

  /** Main result on parsing: of a big-endian 32-bit ELF file with its entry at byte 24,
      the offset of its program headers at 28 and their number at 44, the image is the
      span of these headers, which are 32 bytes each, and the entry without its top
      four bits. */
  lemma ParsedFields(m: seq<byte>, buf: nat, entry: nat, phoff: nat, ps: seq<Phdr>)
    requires buf + 52 <= |m| && buf + phoff + |ps| * 32 <= |m|
    requires entry < WORD && phoff < WORD && |ps| < 0x1_0000
    requires m[buf..buf + 6] == [0x7F, 0x45, 0x4C, 0x46, 1, 2]
    requires m[buf + 24..buf + 28] == BeBytes(entry) && m[buf + 28..buf + 32] == BeBytes(phoff)
    requires m[buf + 44..buf + 46] == [|ps| / 256, |ps| % 256]
    requires forall i :: 0 <= i < |ps| ==> HeaderAt(m, buf + phoff + 32 * i, ps[i])
    ensures HeadersFit(m, buf) && Mapped(m, buf) && HeadersOf(m, buf) == ps
    ensures var s := SpanOf(ps);
            ParseImage(m, buf) == if s.len == 0 then Err(NotLoadable)
                                  else Ok(Image(buf, s.base, s.off, s.len, entry % 0x1000_0000))
  {
    hide BeBytes, Be32, Be16, Phdrs, SpanOf, HeaderAt;
    Be32At(m, buf + 24, entry);
    Be32At(m, buf + 28, phoff);
    Be16At(m, buf + 44, |ps|);
    HeadersAre(m, buf + phoff, ps);
    var id := m[buf..buf + 6];
    assert id[0] == m[buf] && id[1] == m[buf + 1] && id[2] == m[buf + 2] && id[3] == m[buf + 3];
    assert id[4] == m[buf + 4] && id[5] == m[buf + 5];
    assert m[buf..buf + 4] == [m[buf], m[buf + 1], m[buf + 2], m[buf + 3]];
  }

  /** Anything else is refused. */
  lemma OtherFile(m: seq<byte>, buf: nat)
    requires Mapped(m, buf)
    ensures m[buf..buf + 4] != [0x7F, 0x45, 0x4C, 0x46] ==> ParseImage(m, buf) == Err(NotElf)
    ensures m[buf..buf + 4] == [0x7F, 0x45, 0x4C, 0x46] && (m[buf + 4] != 1 || m[buf + 5] != 2) ==>
              ParseImage(m, buf) == Err(WrongElf)
  {
    hide HeadersOf, SpanOf;
  }

  /** elf_parse. */
  method Parse(mem: array<byte>, buf: nat) returns (r: Result<Image>)
    requires Mapped(mem[..], buf)
    ensures r == ParseImage(mem[..], buf)
  {
    hide Be32, Be16, Phdrs, SpanOf, DecodePhdr;
    ghost var m := mem[..];
    assert m[buf..buf + 4] == [m[buf], m[buf + 1], m[buf + 2], m[buf + 3]];
    if !(mem[buf] == 0x7f && mem[buf + 1] == 'E' as int && mem[buf + 2] == 'L' as int && mem[buf + 3] == 'F' as int) {
      return Err(NotElf);
    }
    if mem[buf + 4] != 1 || mem[buf + 5] != 2 {
      return Err(WrongElf);
    }
    SpanOfNone(m, buf + Be32(m, buf + 28));
    var off: nat, len: nat, linkedBase: nat := 0, 0, 0;
    var p, phnum := buf + Be32(mem[..], buf + 28), Be16(mem[..], buf + 44);
    for i := 0 to phnum
      invariant Span(off, len, linkedBase) == SpanOf(Phdrs(m, p, i))
    {
      var ph := DecodePhdr(mem[..], p + i * PHDR_SIZE);
      SpanOfNext(m, p, i);
      if ph.ptype == PT_LOAD && ph.offset != 0 {
        if len == 0 {
          off, len, linkedBase := ph.offset, ph.memsz, ph.vaddr % MASK;
        } else {
          len := (ph.offset + ph.memsz - off) % WORD;
        }
      }
    }
    if len == 0 {
      return Err(NotLoadable);
    }
    return Ok(Image(buf, linkedBase, off, len, Be32(mem[..], buf + 24) % MASK));
  }

  /** The conditions under which the one span is right: the loadable segments start
      no earlier than the first of them, which is not empty, their ends do not
      decrease, nothing wraps, and their masked addresses lie as their offsets do. */
  ghost predicate Flat(ps: seq<Phdr>, first: nat) {
    && first < |ps| && ps[first].Loadable() && 0 < ps[first].memsz
    && (forall i :: 0 <= i < first ==> !ps[i].Loadable())
    && (forall i :: first <= i < |ps| && ps[i].Loadable() ==>
          && ps[first].offset <= ps[i].offset && ps[i].filesz <= ps[i].memsz && ps[i].End() < WORD
          && ps[i].vaddr % MASK == ps[first].vaddr % MASK + (ps[i].offset - ps[first].offset))
    && (forall i, j :: first <= i < j < |ps| && ps[i].Loadable() && ps[j].Loadable() ==> ps[i].End() <= ps[j].End())
  }

  lemma {:induction false} NoneLoadable(ps: seq<Phdr>)
    requires forall p :: p in ps ==> !p.Loadable()
    ensures SpanOf(ps) == Span(0, 0, 0)
    decreases |ps|
  {
    if ps != [] {
      NoneLoadable(ps[..|ps| - 1]);
    }
  }

  /** The span starts at the first loadable segment and reaches the end of each. */
  ghost predicate Covers(s: Span, ps: seq<Phdr>, first: nat)
    requires first < |ps|
  {
    && s.off == ps[first].offset && s.base == ps[first].vaddr % MASK
    && 0 < s.len && s.off + s.len < WORD
    && forall i :: first <= i < |ps| && ps[i].Loadable() ==> ps[i].End() <= s.off + s.len
  }

  /** The span of one header: only segments to load, at an offset other than 0, count. */
  lemma OneSegment(p: Phdr)
    ensures SpanOf([p]) == if p.ptype == 1 && p.offset != 0 then Span(p.offset, p.memsz, p.vaddr % 0x1000_0000)
                           else Span(0, 0, 0)
  {
    assert [p][..0] == [];
  }

  lemma FlatPrefix(ps: seq<Phdr>, first: nat, n: nat)
    requires Flat(ps, first) && first < n <= |ps|
    ensures Flat(ps[..n], first)
  {
  }

  /** It ends with the last loadable one. */
  lemma {:induction false} SpanCovers(ps: seq<Phdr>, first: nat) returns (last: nat)
    requires Flat(ps, first)
    ensures Covers(SpanOf(ps), ps, first)
    ensures first <= last < |ps| && ps[last].Loadable() && ps[last].End() == SpanOf(ps).off + SpanOf(ps).len
    decreases |ps|
  {
    var n := |ps| - 1;
    if first == n {
      NoneLoadable(ps[..n]);
      last := n;
    } else {
      FlatPrefix(ps, first, n);
      last := SpanCovers(ps[..n], first);
      last := SpanStep(ps, first, last);
    }
  }

  lemma SpanStep(ps: seq<Phdr>, first: nat, was: nat) returns (last: nat)
    requires Flat(ps, first) && first < |ps| - 1
    requires var n := |ps| - 1; var s := SpanOf(ps[..n]);
             && Covers(s, ps[..n], first)
             && first <= was < n && ps[was].Loadable() && ps[was].End() == s.off + s.len
    ensures Covers(SpanOf(ps), ps, first)
    ensures first <= last < |ps| && ps[last].Loadable() && ps[last].End() == SpanOf(ps).off + SpanOf(ps).len
  {
    var n := |ps| - 1;
    last := if ps[n].Loadable() then n else was;
    var s, t := SpanOf(ps[..n]), SpanOf(ps);
    assert t == Extend(s, ps[n]);
    hide SpanOf;
    forall i | first <= i < |ps| && ps[i].Loadable() ensures ps[i].End() <= t.off + t.len {
      if i < n { assert ps[..n][i] == ps[i]; }
    }
  }

  /** elf_relo: an old kernel is moved to where it was linked, a newer one runs
      where it was loaded. */
  method Relocate(mem: array<byte>, image: Image, pre24: bool) returns (r: Result<Image>)
    requires image.linkedBase + image.textLen <= mem.Length
    requires image.buf + image.textOffset + image.textLen <= mem.Length
    modifies mem
    ensures pre24 ==> (r == Err(OldTooBig) <==> image.textLen > 0x3e_0000)
    ensures pre24 && image.textLen <= 0x3e_0000 ==>
              r == Ok(image) && mem[..] == Placed(old(mem[..]), image)
    ensures !pre24 ==> r == Ok(Rebased(image))
    ensures !pre24 || r.Err? ==> mem[..] == old(mem[..])
  {
    hide Rebased, Put;
    if pre24 {
      if image.textLen > IQUIK_BASE {
        return Err(OldTooBig);
      }
      Moves.Memmove(mem, image.linkedBase, image.buf + image.textOffset, image.textLen);
      return Ok(image);
    }
    var rebased := Rebase(image);
    return Ok(rebased);
  }

  /** The branch for a newer kernel. */
  method Rebase(image: Image) returns (r: Image)
    ensures r == Rebased(image)
  {
    var entry := (image.entry - image.linkedBase) % WORD;
    var base := (image.buf + image.textOffset) % WORD;
    r := image.(entry := (entry + base) % WORD, linkedBase := base);
  }

  function Placed(m: seq<byte>, image: Image): (r: seq<byte>)
    requires image.linkedBase + image.textLen <= |m|
    requires image.buf + image.textOffset + image.textLen <= |m|
    ensures |r| == |m|
  {
    Put(m, image.linkedBase, m[image.buf + image.textOffset..image.buf + image.textOffset + image.textLen])
  }

  function Rebased(image: Image): Image {
    var base := (image.buf + image.textOffset) % WORD;
    image.(linkedBase := base, entry := ((image.entry - image.linkedBase) % WORD + base) % WORD)
  }

  /** Main result for old kernels: however source and destination overlap, after
      the move every segment's bytes of the file are at its masked address. */
  lemma SegmentsPlaced(m: seq<byte>, buf: nat, first: nat, i: nat)
    requires HeadersFit(m, buf) && Mapped(m, buf) && ParseImage(m, buf).Ok?
    requires Flat(HeadersOf(m, buf), first)
    requires first <= i < |HeadersOf(m, buf)| && HeadersOf(m, buf)[i].Loadable()
    requires var image := ParseImage(m, buf).value;
             image.linkedBase + image.textLen <= |m| && buf + image.textOffset + image.textLen <= |m|
    ensures var p := HeadersOf(m, buf)[i];
            var at := p.vaddr % MASK;
            && at + p.filesz <= |m| && buf + p.offset + p.filesz <= |m|
            && Placed(m, ParseImage(m, buf).value)[at..at + p.filesz] == m[buf + p.offset..buf + p.offset + p.filesz]
  {
    hide Be32, Be16, Phdrs, SpanOf, Put;
    var ps, image := HeadersOf(m, buf), ParseImage(m, buf).value;
    var last := SpanCovers(ps, first);
    hide ParseImage, HeadersOf;
    var p := ps[i];
    var delta := p.offset - ps[first].offset;
    assert p.vaddr % MASK == image.linkedBase + delta && delta + p.filesz <= image.textLen;
    PutSlice(m, image.linkedBase, buf + image.textOffset, image.textLen, delta, p.filesz);
  }

  /** A part of a moved block. */
  lemma PutSlice(m: seq<byte>, dst: nat, src: nat, len: nat, d: nat, n: nat)
    requires dst + len <= |m| && src + len <= |m| && d + n <= len
    ensures Put(m, dst, m[src..src + len])[dst + d..dst + d + n] == m[src + d..src + d + n]
  {
    var w := m[src..src + len];
    var x, y := w[d..d + n], m[src + d..src + d + n];
    forall i | 0 <= i < n ensures x[i] == y[i] {
      assert x[i] == w[d + i] == m[src + (d + i)];
    }
    var r := Put(m, dst, w);
    assert r[dst..dst + len] == w && x == y;
    assert r[dst + d..dst + d + n] == r[dst..dst + len][d..d + n] == x;
  }

  /** Main result for newer kernels: an entry point inside a segment still denotes
      the same byte of that segment. */
  lemma EntryFollows(m: seq<byte>, buf: nat, first: nat, i: nat)
    requires HeadersFit(m, buf) && Mapped(m, buf) && ParseImage(m, buf).Ok?
    requires Flat(HeadersOf(m, buf), first)
    requires first <= i < |HeadersOf(m, buf)| && HeadersOf(m, buf)[i].Loadable()
    requires var image := ParseImage(m, buf).value;
             var p := HeadersOf(m, buf)[i];
             p.vaddr % MASK <= image.entry < p.vaddr % MASK + p.memsz && buf + p.End() < WORD
    ensures var image := ParseImage(m, buf).value;
            var p := HeadersOf(m, buf)[i];
            && Rebased(image).entry == buf + p.offset + (image.entry - p.vaddr % MASK)
            && Rebased(image).linkedBase == buf + image.textOffset
  {
    hide Be32, Be16, Phdrs, SpanOf, Rebased;
    var ps, image := HeadersOf(m, buf), ParseImage(m, buf).value;
    var last := SpanCovers(ps, first);
    hide ParseImage, HeadersOf;
    var p := ps[i];
    assert p.vaddr % MASK == image.linkedBase + (p.offset - ps[first].offset);
    RebasedExactly(image);
  }

  /** Without wrap-around the entry keeps its distance from the base. */
  lemma RebasedExactly(image: Image)
    requires image.linkedBase <= image.entry && image.entry - image.linkedBase < WORD
    requires image.buf + image.textOffset + (image.entry - image.linkedBase) < WORD
    ensures Rebased(image).linkedBase == image.buf + image.textOffset
    ensures Rebased(image).entry == image.buf + image.textOffset + (image.entry - image.linkedBase)
  {
  }
}
