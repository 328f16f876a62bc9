/** The bump allocator (loader/malloc.c). */
module Allocator {
  import opened Bytes
  import Moves

  /** Memory and the three static pointers; last is 0 for a null pointer. */
  datatype Arena = Arena(mem: seq<byte>, base: nat, end: nat, ptr: nat, last: nat)

  predicate Aligned(a: nat) { a % 4 == 0 }

  lemma AlignedSum(a: nat, n: nat)
    requires Aligned(a)
    ensures Aligned(a + n) <==> Aligned(n)
  {
  }

  lemma AlignedStep(a: nat)
    ensures Aligned(a + 4) <==> Aligned(a)
  {
  }

  /** An address or size as 32 bits hold it. */
  function Word32(n: int): (w: nat)
    ensures w < WORD && (0 <= n < WORD ==> w == n)
  {
    n % WORD
  }

  function AlignUp(a: nat): (b: nat)
    ensures a <= b < a + 4 && Aligned(b)
  {
    (a + 3) / 4 * 4
  }

  lemma AlignUpBelow(a: nat, end: nat)
    requires a <= end && Aligned(end)
    ensures AlignUp(a) <= end
  {
  }

  /** malloc: the sum is a 32-bit address. The result 0 stands for NULL. */
  function Allocate(s: Arena, n: nat): (r: (Arena, nat))
    requires n < WORD && s.ptr + 4 <= |s.mem|
    ensures |r.0.mem| == |s.mem|
  {
    var sum := Word32(s.ptr + n + 4);
    if sum >= s.end then (s, 0)
    else (s.(mem := Put(s.mem, s.ptr, BeBytes(n)), ptr := AlignUp(sum), last := s.ptr + 4), s.ptr + 4)
  }

  /** free gives back the last block only. Pointers are 32-bit addresses. */
  function GiveBack(s: Arena, m: nat): Arena {
    if m == s.last then s.(ptr := Word32(s.last - 4)) else s
  }

  /** realloc of the last block resizes it where it is. */
  function Resize(s: Arena, n: nat): Arena
    requires n < WORD && 4 <= s.last <= |s.mem|
  {
    s.(mem := Put(s.mem, s.last - 4, BeBytes(n)), ptr := Word32(s.last + n))
  }

  /** What realloc needs to read: the header of the block, and the contents it
      tells of, which lie before the free part and fit behind the new header. */
  predicate Readable(s: Arena, m: nat) {
    && 4 <= m <= |s.mem|
    && (m != s.last && m != 0 ==> var n := Be32(s.mem, m - 4); m + n <= s.ptr && s.ptr + 4 + n <= |s.mem|)
  }

  /** realloc: the last block is resized where it is; of any other one, all bytes are
      copied to a new block, whatever its size. */
  function Reallocate(s: Arena, m: nat, n: nat): (r: (Arena, nat))
    requires n < WORD && s.ptr + 4 <= |s.mem| && (m == s.last || m != 0 ==> Readable(s, m))
  {
    if m == s.last then (Resize(s, n), m)
    else
      var (s1, c) := Allocate(s, n);
      if c == 0 || m == 0 then (s1, c)
      else
        HeaderStays(s.mem, s.ptr, BeBytes(n), m - 4);
        (Copied(s1, c, m), c)
  }

  /** memcpy of a block with its size from the header. */
  function Copied(s: Arena, c: nat, m: nat): Arena
    requires 4 <= m <= |s.mem|
    requires var n := Be32(s.mem, m - 4); m + n <= |s.mem| && c + n <= |s.mem|
  {
    s.(mem := Put(s.mem, c, s.mem[m..m + Be32(s.mem, m - 4)]))
  }

  /** Block a of the given size lies in the arena after its header, is aligned,
      and ends before the last block unless it is that block. */
  ghost predicate BlockOk(s: Arena, a: nat, size: nat) {
    && s.base + 4 <= a && Aligned(a) && a + size <= s.ptr
    && (a != s.last ==> a + size + 4 <= s.last)
    && a <= |s.mem| && Be32(s.mem, a - 4) == size
  }

  /** The blocks that clients hold, by address. */
  type Live = map<nat, nat>

  /** No two live blocks overlap, headers included. */
  ghost predicate Disjoint(live: Live) {
    forall a, b :: a in live && b in live && a < b ==> a + live[a] + 4 <= b
  }

  /** The arena and the pointers are where they should be. */
  predicate Shape(s: Arena) {
    && Aligned(s.base) && Aligned(s.end) && Aligned(s.ptr)
    && 0 < s.base <= s.ptr <= s.end && s.end + 4 <= |s.mem| && s.end < WORD
    && (s.last != 0 ==> s.base + 4 <= s.last <= s.end)
  }

  ghost predicate Safe(s: Arena, live: Live) {
    && Shape(s)
    && (forall a :: a in live ==> BlockOk(s, a, live[a]))
    && Disjoint(live)
  }

  lemma {:induction false} HeaderStays(m: seq<byte>, o: nat, w: seq<byte>, a: nat)
    requires o + |w| <= |m| && a + 4 <= |m| && (a + 4 <= o || o + |w| <= a)
    ensures Be32(Put(m, o, w), a) == Be32(m, a)
  {
  }

  lemma HeaderWritten(m: seq<byte>, o: nat, n: nat)
    requires o + 4 <= |m| && n < WORD
    ensures Be32(Put(m, o, BeBytes(n)), o) == n
  {
    hide BeBytes;
    var r := Put(m, o, BeBytes(n));
    assert r[o..o + 4] == BeBytes(n);
    Be32At(r, o, n);
  }

  lemma MallocFits(s: Arena, live: Live, n: nat)
    requires Safe(s, live) && s.ptr + n + 4 < WORD && Allocate(s, n).1 != 0
    ensures Safe(Allocate(s, n).0, live[Allocate(s, n).1 := n])
  {
    hide Put, BeBytes, Be32, Aligned, Word32;
    var (s', c) := Allocate(s, n);
    HeaderWritten(s.mem, s.ptr, n);
    AlignedStep(s.ptr);
    AlignUpBelow(s.ptr + n + 4, s.end);
    forall a | a in live ensures BlockOk(s', a, live[a]) && a + live[a] + 4 <= c {
      assert BlockOk(s, a, live[a]);
      HeaderStays(s.mem, s.ptr, BeBytes(n), a - 4);
    }
    assert BlockOk(s', c, n);
  }

  /** A block handed out keeps everything safe exactly when its end does not wrap
      around the address space. */
  lemma MallocSafe(s: Arena, live: Live, n: nat)
    requires Safe(s, live) && n < WORD
    ensures var (s', c) := Allocate(s, n);
            && (c == 0 ==> s' == s)
            && (c != 0 ==> c !in live && (Safe(s', live[c := n]) <==> s.ptr + n + 4 < WORD))
  {
    hide Put, BeBytes, Be32, Disjoint;
    var (s', c) := Allocate(s, n);
    assert forall a :: a in live ==> BlockOk(s, a, live[a]);
    if c != 0 {
      if s.ptr + n + 4 < WORD {
        MallocFits(s, live, n);
      } else {
        assert live[c := n][c] == n && !BlockOk(s', c, n);
      }
    }
  }

  /** malloc hands a block out exactly when its end stays below the end of the arena:
      behind a header at the pointer that says its size, the pointer then being the
      first multiple of four behind the block. */
  lemma MallocGives(s: Arena, live: Live, n: nat)
    requires Safe(s, live) && s.ptr + n + 4 < WORD
    ensures var (s', c) := Allocate(s, n);
            && (c != 0 <==> s.ptr + 4 + n < s.end)
            && (c == 0 ==> s' == s)
            && (c != 0 ==> c == s.ptr + 4 == s'.last && s'.mem[s.ptr..c] == BeBytes(n)
                           && s'.mem[..s.ptr] == s.mem[..s.ptr] && s'.mem[c..] == s.mem[c..]
                           && c + n <= s'.ptr < c + n + 4 && s'.ptr % 4 == 0)
  {
    hide BeBytes, Be32, BlockOk, Disjoint;
    var s' := Allocate(s, n).0;
    if s.ptr + 4 + n < s.end {
      SliceStays(s.mem, s.ptr, BeBytes(n), 0, s.ptr);
      SliceStays(s.mem, s.ptr, BeBytes(n), s.ptr + 4, |s.mem|);
      assert s'.mem[s.ptr..s.ptr + 4] == BeBytes(n);
    }
  }

  lemma FewerSafe(s: Arena, live: Live, m: nat)
    requires Safe(s, live)
    ensures Safe(s, live - {m})
  {
    hide BlockOk;
  }

  lemma FreedBlock(s: Arena, a: nat, size: nat)
    requires BlockOk(s, a, size) && a != s.last
    ensures 4 <= s.last && BlockOk(s.(ptr := s.last - 4), a, size)
  {
    hide Be32;
  }

  /** Without the last block the pointer can go back to its header. */
  lemma FreeLast(s: Arena, live: Live)
    requires Safe(s, live) && s.last !in live && s.base + 4 <= s.last && Aligned(s.last)
    ensures Safe(s.(ptr := s.last - 4), live)
  {
    hide BlockOk, Disjoint, Aligned;
    AlignedStep(s.last - 4);
    forall a | a in live ensures BlockOk(s.(ptr := s.last - 4), a, live[a]) {
      FreedBlock(s, a, live[a]);
    }
  }

  /** Freeing a live block leaves the others safe. */
  lemma FreeSafe(s: Arena, live: Live, m: nat)
    requires Safe(s, live) && m in live
    ensures Safe(GiveBack(s, m), live - {m})
  {
    hide Safe, Word32, Aligned;
    FewerSafe(s, live, m);
    if m == s.last {
      LastBlock(s, live);
      FreeLast(s, live - {m});
    }
  }

  /** malloc and free of the same block put the pointer back, and freeing it once
      more before the next malloc changes nothing. */
  lemma FreeUndoesMalloc(s: Arena, n: nat)
    requires n < WORD && s.ptr + 4 <= |s.mem| && s.ptr < WORD
    requires Allocate(s, n).1 != 0
    ensures var (s', c) := Allocate(s, n);
            && GiveBack(s', c).ptr == s.ptr
            && GiveBack(GiveBack(s', c), c) == GiveBack(s', c)
            && Allocate(GiveBack(s', c), n) == (s', c)
  {
    hide Put, BeBytes;
    var (s', c) := Allocate(s, n);
    PutTwice(s.mem, s.ptr, BeBytes(n));
  }

  /** Freeing a null pointer is harmless exactly after the first malloc: before it,
      it equals last_alloc and the pointer would move below the arena. */
  lemma FreeNull(s: Arena, live: Live)
    requires Safe(s, live) && s.end + 4 < WORD
    ensures Safe(GiveBack(s, 0), live) <==> s.last != 0
  {
    hide BlockOk, Disjoint;
    assert s.last == 0 ==> GiveBack(s, 0).ptr == WORD - 4 by { assert -4 % WORD == WORD - 4; }
  }

  lemma PutTwice(m: seq<byte>, o: nat, w: seq<byte>)
    requires o + |w| <= |m|
    ensures Put(Put(m, o, w), o, w) == Put(m, o, w)
  {
  }

  /** Resizing the last block in place keeps everything safe exactly when the new
      size is a multiple of four and fits; the loader checks neither. */
  lemma ResizeSafe(s: Arena, live: Live, n: nat)
    requires Safe(s, live) && s.last in live && n < WORD
    ensures s.last <= |s.mem|
    ensures Safe(Resize(s, n), live[s.last := n]) <==> Aligned(n) && s.last + n <= s.end
  {
    hide Put, BeBytes, Be32, Safe, Resize, Aligned;
    LastBlock(s, live);
    if Aligned(n) && s.last + n <= s.end {
      ResizeFits(s, live, n);
    }
    if Safe(Resize(s, n), live[s.last := n]) {
      ResizeNeeds(s, live, n);
    }
  }

  lemma LastBlock(s: Arena, live: Live)
    requires Safe(s, live) && s.last in live
    ensures s.base + 4 <= s.last <= |s.mem| && s.last < WORD && Aligned(s.last)
  {
    hide Be32, Disjoint;
    assert BlockOk(s, s.last, live[s.last]);
  }

  lemma ResizeNeeds(s: Arena, live: Live, n: nat)
    requires 4 <= s.last <= |s.mem| && s.last < WORD && Aligned(s.last) && n < WORD
    requires Safe(Resize(s, n), live[s.last := n])
    ensures Aligned(n) && s.last + n <= s.end
  {
    hide Put, BeBytes, Be32, Disjoint, Aligned, Word32;
    AlignedSum(s.last, n);
    var s', live' := Resize(s, n), live[s.last := n];
    assert s.last in live' && live'[s.last] == n;
    assert BlockOk(s', s.last, n);
  }

  /** A block before the last one does not notice that this is resized. */
  lemma BlockBelow(s: Arena, a: nat, size: nat, n: nat)
    requires BlockOk(s, a, size) && a != s.last && 4 <= s.last <= |s.mem| && n < WORD && s.last + n < WORD
    ensures BlockOk(Resize(s, n), a, size)
  {
    hide Put, BeBytes, Be32, Aligned, Word32;
    HeaderStays(s.mem, s.last - 4, BeBytes(n), a - 4);
  }

  lemma ResizeFits(s: Arena, live: Live, n: nat)
    requires Safe(s, live) && s.last in live && s.last <= |s.mem|
    requires Aligned(n) && s.last + n <= s.end && n < WORD
    ensures Safe(Resize(s, n), live[s.last := n])
  {
    hide Put, BeBytes, Be32, Disjoint, Aligned, Word32;
    LastBlock(s, live);
    AlignedSum(s.last, n);
    var s', live' := Resize(s, n), live[s.last := n];
    HeaderWritten(s.mem, s.last - 4, n);
    forall a | a in live' ensures BlockOk(s', a, live'[a]) {
      if a != s.last {
        BlockBelow(s, a, live[a], n);
      }
    }
    LastGrows(s, live, n);
  }

  lemma LastGrows(s: Arena, live: Live, n: nat)
    requires Safe(s, live)
    ensures Disjoint(live[s.last := n])
  {
    hide Be32;
    var live' := live[s.last := n];
    forall a, b | a in live' && b in live' && a < b ensures a + live'[a] + 4 <= b {
      assert a != s.last ==> BlockOk(s, a, live[a]);
      assert b != s.last ==> BlockOk(s, b, live[b]);
    }
  }

  /** The bytes of a live block. */
  ghost function Contents(s: Arena, live: Live, a: nat): seq<byte>
    requires Safe(s, live) && a in live
  {
    assert BlockOk(s, a, live[a]);
    s.mem[a..a + live[a]]
  }

  lemma SliceStays(m: seq<byte>, o: nat, w: seq<byte>, a: nat, b: nat)
    requires o + |w| <= |m| && a <= b <= |m| && (b <= o || o + |w| <= a)
    ensures Put(m, o, w)[a..b] == m[a..b]
  {
  }

  /** malloc leaves the contents of every live block as they are. */
  lemma MallocKeepsContents(s: Arena, live: Live, n: nat)
    requires Safe(s, live) && s.ptr + n + 4 < WORD && Allocate(s, n).1 != 0
    ensures var (s', c) := Allocate(s, n);
            var live' := live[c := n];
            Safe(s', live') && forall a :: a in live && a != c ==> Contents(s', live', a) == Contents(s, live, a)
  {
    hide Put, BeBytes, Be32, Disjoint;
    MallocFits(s, live, n);
    var (s', c) := Allocate(s, n);
    forall a | a in live && a != c ensures Contents(s', live[c := n], a) == Contents(s, live, a) {
      assert BlockOk(s, a, live[a]);
      SliceStays(s.mem, s.ptr, BeBytes(n), a, a + live[a]);
    }
  }

  /** So does resizing the last block, for the others and for what it keeps of that block. */
  lemma ResizeKeepsContents(s: Arena, live: Live, n: nat)
    requires Safe(s, live) && s.last in live && n < WORD && Aligned(n) && s.last + n <= s.end
    ensures s.last <= |s.mem|
    ensures var s', live' := Resize(s, n), live[s.last := n];
            && Safe(s', live')
            && (forall a :: a in live && a != s.last ==> Contents(s', live', a) == Contents(s, live, a))
            && s.last + Min(n, live[s.last]) <= |s.mem|
            && s'.mem[s.last..s.last + Min(n, live[s.last])] == s.mem[s.last..s.last + Min(n, live[s.last])]
  {
    hide Put, BeBytes, Be32, Disjoint;
    assert BlockOk(s, s.last, live[s.last]);
    ResizeFits(s, live, n);
    forall a | a in live && a != s.last
      ensures Contents(Resize(s, n), live[s.last := n], a) == Contents(s, live, a)
    {
      assert BlockOk(s, a, live[a]);
      SliceStays(s.mem, s.last - 4, BeBytes(n), a, a + live[a]);
    }
    SliceStays(s.mem, s.last - 4, BeBytes(n), s.last, s.last + Min(n, live[s.last]));
  }

  /** Writing inside one block changes just those of its bytes and touches no other block. */
  lemma WriteInside(s: Arena, live: Live, c: nat, o: nat, w: seq<byte>)
    requires Safe(s, live) && c in live && o + |w| <= live[c]
    ensures c + o + |w| <= |s.mem|
    ensures var s' := s.(mem := Put(s.mem, c + o, w));
            && Safe(s', live) && Contents(s', live, c) == Put(Contents(s, live, c), o, w)
            && forall a :: a in live && a != c ==> Contents(s', live, a) == Contents(s, live, a)
  {
    hide Put, Be32, BlockOk, Disjoint;
    BlockFits(s, live, c);
    WriteInsideSafe(s, live, c, o, w);
    forall a | a in live && a != c
      ensures Contents(s.(mem := Put(s.mem, c + o, w)), live, a) == Contents(s, live, a)
    {
      BlocksApart(s, live, a, c);
      SliceStays(s.mem, c + o, w, a, a + live[a]);
    }
    PutInSlice(s.mem, c, o, w, live[c]);
  }

  lemma BlockFits(s: Arena, live: Live, c: nat)
    requires Safe(s, live) && c in live
    ensures 4 <= c && c + live[c] <= |s.mem|
  {
    hide Be32, Disjoint;
    assert BlockOk(s, c, live[c]);
  }

  /** Two live blocks do not overlap, nor do their headers. */
  lemma BlocksApart(s: Arena, live: Live, a: nat, b: nat)
    requires Safe(s, live) && a in live && b in live && a != b
    ensures 4 <= a && a + live[a] <= |s.mem| && 4 <= b && b + live[b] <= |s.mem|
    ensures a + live[a] + 4 <= b || b + live[b] + 4 <= a
  {
    hide Be32;
    assert BlockOk(s, a, live[a]) && BlockOk(s, b, live[b]);
  }

  lemma WriteInsideSafe(s: Arena, live: Live, c: nat, o: nat, w: seq<byte>)
    requires Safe(s, live) && c in live && o + |w| <= live[c] && c + o + |w| <= |s.mem|
    ensures Safe(s.(mem := Put(s.mem, c + o, w)), live)
  {
    hide Put, Be32;
    assert BlockOk(s, c, live[c]);
    var s' := s.(mem := Put(s.mem, c + o, w));
    forall a | a in live ensures BlockOk(s', a, live[a]) {
      assert BlockOk(s, a, live[a]);
      HeaderStays(s.mem, c + o, w, a - 4);
    }
  }

  lemma PutInSlice(m: seq<byte>, c: nat, o: nat, w: seq<byte>, n: nat)
    requires o + |w| <= n && c + n <= |m|
    ensures Put(m, c + o, w)[c..c + n] == Put(m[c..c + n], o, w)
  {
  }

  /** Every block but one has the contents it had. */
  ghost predicate Keeps(s: Arena, live: Live, s': Arena, live': Live, but: nat)
    requires Safe(s, live) && Safe(s', live')
  {
    forall a :: a in live && a != but ==> a in live' && Contents(s', live', a) == Contents(s, live, a)
  }

  /** Writing from the start of the last block, also past its end, touches no other block. */
  lemma WriteLast(s: Arena, live: Live, w: seq<byte>)
    requires Safe(s, live) && s.last in live && s.last + |w| <= |s.mem|
    ensures var s' := s.(mem := Put(s.mem, s.last, w));
            Safe(s', live) && Keeps(s, live, s', live, s.last)
  {
    hide Put, Be32;
    assert BlockOk(s, s.last, live[s.last]);
    var s' := s.(mem := Put(s.mem, s.last, w));
    forall a | a in live ensures BlockOk(s', a, live[a]) {
      assert BlockOk(s, a, live[a]);
      HeaderStays(s.mem, s.last, w, a - 4);
    }
    forall a | a in live && a != s.last ensures Contents(s', live, a) == Contents(s, live, a) {
      assert BlockOk(s, a, live[a]);
      SliceStays(s.mem, s.last, w, a, a + live[a]);
    }
  }

  lemma PutReads(m: seq<byte>, o: nat, w: seq<byte>, end: nat)
    requires o + |w| <= |m| && o <= end <= |m|
    ensures var k := Min(|w|, end - o); Put(m, o, w)[o..end][..k] == w[..k]
  {
    var r, k := Put(m, o, w), Min(|w|, end - o);
    assert r[o..o + |w|] == w;
    assert r[o..end][..k] == r[o..o + |w|][..k];
  }

  /** From s to s' a new block c of n bytes came to hold the contents of m, or as
      much as it has room for, and no other block changed. */
  ghost predicate MovedTo(s: Arena, live: Live, s': Arena, c: nat, n: nat, m: nat)
    requires Safe(s, live) && m in live
  {
    var k := Min(live[m], n);
    && c !in live && Safe(s', live[c := n]) && Keeps(s, live, s', live[c := n], c)
    && Contents(s', live[c := n], c)[..k] == Contents(s, live, m)[..k]
  }

  lemma MoveReadable(s: Arena, live: Live, m: nat)
    requires Safe(s, live) && m in live && m != s.last && s.ptr + 4 + live[m] <= |s.mem|
    ensures m != 0 && Readable(s, m) && Be32(s.mem, m - 4) == live[m]
  {
    hide Be32, Disjoint;
    assert BlockOk(s, m, live[m]);
  }

  /** realloc of a live block that is not the last one. The copy may go past the end
      of a smaller new block, but never into another block. */
  lemma MoveSafe(s: Arena, live: Live, m: nat, n: nat)
    requires Safe(s, live) && m in live && m != s.last && s.ptr + n + 4 < WORD
    requires s.ptr + 4 + live[m] <= |s.mem|
    ensures m != 0 && Readable(s, m)
    ensures var (s', c) := Reallocate(s, m, n);
            if c == 0 then s' == s else MovedTo(s, live, s', c, n, m)
  {
    hide Put, BeBytes, Be32, Disjoint, Readable, Copied;
    MoveReadable(s, live, m);
    var (s1, c) := Allocate(s, n);
    if c != 0 {
      var live' := live[c := n];
      MallocSafe(s, live, n);
      MallocKeepsContents(s, live, n);
      CopyFits(s1, live', m, live[m]);
      assert Contents(s1, live', m) == Contents(s, live, m);
      MoveRefined(s, live, s1, m, n);
    }
  }

  /** The copy leaves the arena exactly when the old block is larger than what is
      left behind the new header, which takes a new size below the old one; then
      the end of the old block overwrites what lies behind the arena. */
  lemma MoveLeaves(s: Arena, live: Live, m: nat, n: nat)
    requires Safe(s, live) && m in live && m != s.last && s.ptr + n + 4 < WORD
    requires s.ptr + 4 + live[m] <= |s.mem| && Allocate(s, n).1 != 0
    ensures m != 0 && Readable(s, m) && m + live[m] <= |s.mem|
    ensures var (s', c) := Reallocate(s, m, n);
            && c == s.ptr + 4 && s'.end == s.end <= |s'.mem| == |s.mem|
            && (if c + live[m] <= s.end then s'.mem[s.end..] == s.mem[s.end..]
                else n < live[m] && s'.mem[s.end..c + live[m]] == s.mem[m + (s.end - c)..m + live[m]]
                     && s'.mem[c + live[m]..] == s.mem[c + live[m]..])
  {
    hide Put, BeBytes, Be32, Disjoint, Safe;
    MoveReadable(s, live, m);
    BelowHeader(s, live, m);
    HeaderStays(s.mem, s.ptr, BeBytes(n), m - 4);
    HeaderAndCopy(s.mem, s.ptr, BeBytes(n), m, live[m], s.end);
  }

  lemma BelowHeader(s: Arena, live: Live, m: nat)
    requires Safe(s, live) && m in live && m != s.last
    ensures 4 <= m && m + live[m] <= s.ptr && s.ptr <= s.end && s.end + 4 <= |s.mem|
  {
    hide Be32, Disjoint;
    assert BlockOk(s, m, live[m]);
  }

  /** A header h at p, and behind it a copy of the k bytes at m, seen from a boundary. */
  lemma HeaderAndCopy(mem: seq<byte>, p: nat, h: seq<byte>, m: nat, k: nat, end: nat)
    requires |h| == 4 && m + k <= p && p + 4 + k <= |mem| && p <= end && end + 4 <= |mem|
    ensures Put(mem, p, h)[m..m + k] == mem[m..m + k]
    ensures var c, r := p + 4, Put(Put(mem, p, h), p + 4, mem[m..m + k]);
            c <= end ==>
              if c + k <= end then r[end..] == mem[end..]
              else r[end..c + k] == mem[m + (end - c)..m + k] && r[c + k..] == mem[c + k..]
  {
    hide Put;
    var c, w, t := p + 4, mem[m..m + k], Put(mem, p, h);
    SliceStays(mem, p, h, m, m + k);
    if c <= end {
      SliceStays(mem, p, h, end, |mem|);
      CopyEnds(t, c, w, end);
      if end < c + k {
        SliceStays(mem, p, h, c + k, |mem|);
        assert w[end - c..] == mem[m + (end - c)..m + k];
      }
    }
  }

  /** A copy that may go past a boundary. */
  lemma CopyEnds(m: seq<byte>, c: nat, w: seq<byte>, end: nat)
    requires c + |w| <= |m| && c <= end <= |m|
    ensures var r := Put(m, c, w);
            && (c + |w| <= end ==> r[end..] == m[end..])
            && (end < c + |w| ==> r[end..c + |w|] == w[end - c..] && r[c + |w|..] == m[c + |w|..])
  {
    var r := Put(m, c, w);
    if end < c + |w| {
      assert forall j :: 0 <= j < c + |w| - end ==> r[end..][j] == w[end - c..][j];
    }
  }

  /** After the allocation the old block is readable where it was. */
  lemma CopyFits(s: Arena, live: Live, m: nat, n: nat)
    requires Safe(s, live) && m in live && live[m] == n
    ensures 4 <= m <= |s.mem| && m + n <= |s.mem| && Be32(s.mem, m - 4) == n
  {
    hide Be32, Disjoint;
    assert BlockOk(s, m, live[m]);
  }

  lemma MoveRefined(s: Arena, live: Live, s1: Arena, m: nat, n: nat)
    requires Safe(s, live) && m in live && s1.last !in live && Safe(s1, live[s1.last := n])
    requires Keeps(s, live, s1, live[s1.last := n], s1.last) && s1.last + live[m] <= |s1.mem|
    ensures 4 <= m <= |s1.mem| && m + live[m] <= |s1.mem| && Be32(s1.mem, m - 4) == live[m]
    ensures MovedTo(s, live, Copied(s1, s1.last, m), s1.last, n, m)
  {
    hide Put, Be32, Disjoint, BlockOk, Shape;
    var c, live' := s1.last, live[s1.last := n];
    CopyFits(s1, live', m, live[m]);
    CopyFits(s1, live', c, n);
    var w := Contents(s1, live', m);
    WriteLast(s1, live', w);
    PutReads(s1.mem, c, w, c + n);
  }

  /** What clients do: ask for n bytes, give back a block they hold, write w from
      byte o of one, or change the size of one. */
  datatype Op =
    | Alloc(n: nat)
    | Return(m: nat)
    | Write(c: nat, o: nat, w: seq<byte>)
    | Change(m: nat, n: nat)

  /** A request whose end does not wrap, the return of a live block, a write inside
      one, a fitting multiple of four for the last block, or a new size for another
      one when a copy of all of it stays in the arena. */
  ghost predicate Proper(s: Arena, live: Live, op: Op) {
    match op
    case Alloc(n) => s.ptr + n + 4 < WORD
    case Return(m) => m in live
    case Write(c, o, w) => c in live && o + |w| <= live[c]
    case Change(m, n) =>
      && m in live && n < WORD
      && (if m == s.last then Aligned(n) && m + n <= s.end
          else s.ptr + n + 4 < WORD && s.ptr + 4 + live[m] <= s.end)
  }

  /** In a safe state a proper operation is defined. */
  lemma Defined(s: Arena, live: Live, op: Op)
    requires Safe(s, live) && Proper(s, live, op)
    ensures s.ptr + 4 <= |s.mem|
    ensures op.Write? ==> op.c + op.o + |op.w| <= |s.mem|
    ensures op.Change? ==> Readable(s, op.m)
  {
    hide Be32, Disjoint;
    match op
    case Alloc(_) =>
    case Return(_) =>
    case Write(c, _, _) => assert BlockOk(s, c, live[c]);
    case Change(m, _) => assert BlockOk(s, m, live[m]);
  }

  ghost function Step(s: Arena, live: Live, op: Op): (Arena, Live)
    requires Safe(s, live) && Proper(s, live, op)
  {
    Defined(s, live, op);
    match op
    case Alloc(n) => var (s', c) := Allocate(s, n); (s', if c == 0 then live else live[c := n])
    case Return(m) => (GiveBack(s, m), live - {m})
    case Write(c, o, w) => (s.(mem := Put(s.mem, c + o, w)), live)
    case Change(m, n) => var (s', c) := Reallocate(s, m, n); (s', if c == 0 then live else live[c := n])
  }

  /** An operation that writes to a block, resizes it or gives it back. */
  predicate Touches(s: Arena, op: Op, a: nat) {
    match op
    case Alloc(_) => false
    case Return(m) => a == m
    case Write(c, _, _) => a == c
    case Change(m, _) => a == m == s.last
  }

  /** What every operation keeps: safety, the arena, and all blocks it does not touch. */
  ghost predicate StepKeeps(s: Arena, live: Live, op: Op)
    requires Safe(s, live) && Proper(s, live, op)
  {
    var (s', live') := Step(s, live, op);
    && Safe(s', live') && s'.base == s.base && s'.end == s.end
    && forall a :: a in live && !Touches(s, op, a) ==> a in live' && Contents(s', live', a) == Contents(s, live, a)
  }

  lemma StepSafe(s: Arena, live: Live, op: Op)
    requires Safe(s, live) && Proper(s, live, op)
    ensures StepKeeps(s, live, op)
  {
    hide Safe, Put, BeBytes, Be32, Contents, MovedTo;
    match op
    case Alloc(n) => AllocKeeps(s, live, n);
    case Return(m) => ReturnKeeps(s, live, m);
    case Write(c, o, w) => WriteInside(s, live, c, o, w);
    case Change(m, n) =>
      if m == s.last { GrowKeeps(s, live, n); } else { MoveKeeps(s, live, m, n); }
  }

  lemma AllocKeeps(s: Arena, live: Live, n: nat)
    requires Safe(s, live) && Proper(s, live, Alloc(n))
    ensures StepKeeps(s, live, Alloc(n))
  {
    hide Put, BeBytes, Be32, BlockOk, Disjoint;
    MallocSafe(s, live, n);
    if Allocate(s, n).1 != 0 {
      MallocKeepsContents(s, live, n);
    }
  }

  lemma ReturnKeeps(s: Arena, live: Live, m: nat)
    requires Safe(s, live) && Proper(s, live, Return(m))
    ensures StepKeeps(s, live, Return(m))
  {
    hide Be32, BlockOk, Disjoint;
    FreeSafe(s, live, m);
    var (s', live') := Step(s, live, Return(m));
    forall a | a in live && a != m ensures a in live' && Contents(s', live', a) == Contents(s, live, a) {
      assert live'[a] == live[a] && s'.mem == s.mem;
    }
  }

  lemma GrowKeeps(s: Arena, live: Live, n: nat)
    requires Safe(s, live) && s.last in live && Proper(s, live, Change(s.last, n))
    ensures StepKeeps(s, live, Change(s.last, n))
  {
    hide Put, BeBytes, Be32, Disjoint;
    assert BlockOk(s, s.last, live[s.last]);
    hide BlockOk;
    ResizeKeepsContents(s, live, n);
  }

  lemma MoveKeeps(s: Arena, live: Live, m: nat, n: nat)
    requires Safe(s, live) && m != s.last && Proper(s, live, Change(m, n))
    ensures StepKeeps(s, live, Change(m, n))
  {
    hide Put, BeBytes, Be32, BlockOk, Disjoint, Copied;
    MoveSafe(s, live, m, n);
    SameArena(s, m, n);
  }

  lemma SameArena(s: Arena, m: nat, n: nat)
    requires n < WORD && s.ptr + 4 <= |s.mem| && (m == s.last || m != 0 ==> Readable(s, m))
    ensures Reallocate(s, m, n).0.base == s.base && Reallocate(s, m, n).0.end == s.end
  {
    hide Put, BeBytes, Be32;
  }

  /** The operations of a run are proper where they happen. */
  ghost predicate ProperRun(s: Arena, live: Live, ops: seq<Op>)
    requires Safe(s, live)
    decreases |ops|
  {
    ops != [] ==>
      && Proper(s, live, ops[0])
      && (StepSafe(s, live, ops[0]);
          var (s', live') := Step(s, live, ops[0]);
          ProperRun(s', live', ops[1..]))
  }

  ghost function Run(s: Arena, live: Live, ops: seq<Op>): (Arena, Live)
    requires Safe(s, live) && ProperRun(s, live, ops)
    decreases |ops|
  {
    if ops == [] then (s, live)
    else
      StepSafe(s, live, ops[0]);
      var (s', live') := Step(s, live, ops[0]);
      Run(s', live', ops[1..])
  }

  /** Main result: after every run from an empty arena the live blocks are aligned,
      inside the arena, pairwise disjoint with their headers, and carry their sizes. */
  lemma RunSafe(base: nat, end: nat, mem: seq<byte>, ops: seq<Op>)
    requires 0 < base <= end && Aligned(base) && Aligned(end) && end + 4 <= |mem| && end < WORD
    requires ProperRun(Arena(mem, base, end, base, 0), map[], ops)
    ensures var (s, live) := Run(Arena(mem, base, end, base, 0), map[], ops);
            && s.base == base && s.end == end
            && (forall a :: a in live ==>
                  Aligned(a) && base + 4 <= a && a + live[a] <= end && a <= |s.mem| && Be32(s.mem, a - 4) == live[a])
            && (forall a, b :: a in live && b in live && a < b ==> a + live[a] + 4 <= b)
  {
    var s0 := Arena(mem, base, end, base, 0);
    RunKeeps(s0, map[], ops);
    var (s, live) := Run(s0, map[], ops);
    forall a | a in live ensures BlockOk(s, a, live[a]) {
    }
  }

  lemma {:induction false} RunKeeps(s: Arena, live: Live, ops: seq<Op>)
    requires Safe(s, live) && ProperRun(s, live, ops)
    ensures Safe(Run(s, live, ops).0, Run(s, live, ops).1)
    ensures Run(s, live, ops).0.base == s.base && Run(s, live, ops).0.end == s.end
    decreases |ops|
  {
    hide BlockOk, Disjoint, Proper, Step, Safe;
    if ops != [] {
      StepSafe(s, live, ops[0]);
      var (s', live') := Step(s, live, ops[0]);
      RunKeeps(s', live', ops[1..]);
    }
  }

  /** No operation of the run touches block a. */
  ghost predicate Untouched(s: Arena, live: Live, ops: seq<Op>, a: nat)
    requires Safe(s, live) && ProperRun(s, live, ops)
    decreases |ops|
  {
    ops != [] ==>
      && !Touches(s, ops[0], a)
      && (StepSafe(s, live, ops[0]);
          var (s', live') := Step(s, live, ops[0]);
          Untouched(s', live', ops[1..], a))
  }

  /** Main result: what a client wrote to a block is there until the client touches
      the block again, whatever happens to all others meanwhile. */
  lemma {:induction false} RunKeepsContents(s: Arena, live: Live, ops: seq<Op>, a: nat)
    requires Safe(s, live) && ProperRun(s, live, ops) && a in live && Untouched(s, live, ops, a)
    ensures var (s', live') := Run(s, live, ops);
            Safe(s', live') && a in live' && Contents(s', live', a) == Contents(s, live, a)
    decreases |ops|
  {
    hide Proper, Step, Safe, Contents, Touches;
    RunKeeps(s, live, ops);
    if ops != [] {
      StepSafe(s, live, ops[0]);
      var (s', live') := Step(s, live, ops[0]);
      RunKeepsContents(s', live', ops[1..], a);
    }
  }

  /** The allocator with its statics; memory is an array indexed by address. */
  class Heap {
    const base: nat
    const malloc_end: nat
    const mem: array<byte>
    var malloc_ptr: nat
    var last_alloc: nat

    ghost function State(): Arena
      reads this, mem
    {
      Arena(mem[..], base, malloc_end, malloc_ptr, last_alloc)
    }

    /** malloc_init, after the claim succeeded. */
    constructor (mem: array<byte>, base: nat, size: nat)
      requires 0 < base && Aligned(base) && Aligned(size)
      requires base + size < WORD && base + size + 4 <= mem.Length
      ensures State() == Arena(mem[..], base, base + size, base, 0)
      ensures Safe(State(), map[]) && this.mem == mem
    {
      this.mem, this.base, malloc_end := mem, base, base + size;
      malloc_ptr, last_alloc := base, 0;
    }

    method StoreWord(a: nat, n: nat)
      requires a + 4 <= mem.Length && n < WORD
      modifies mem
      ensures mem[..] == Put(old(mem[..]), a, BeBytes(n))
    {
      Moves.Store(mem, a, BeBytes(n));
    }

    method Malloc(size: nat) returns (caddr: nat)
      requires size < WORD && malloc_ptr + 4 <= mem.Length
      modifies this`malloc_ptr, this`last_alloc, mem
      ensures (State(), caddr) == Allocate(old(State()), size)
    {
      hide Put, BeBytes;
      if Word32(malloc_ptr + size + 4) >= malloc_end {
        return 0;
      }
      StoreWord(malloc_ptr, size);
      caddr := malloc_ptr + 4;
      malloc_ptr := Word32(malloc_ptr + size + 4);
      last_alloc := caddr;
      malloc_ptr := AlignUp(malloc_ptr);
    }

    method Free(m: nat)
      modifies this`malloc_ptr
      ensures State() == GiveBack(old(State()), m)
    {
      if m == last_alloc {
        malloc_ptr := Word32(last_alloc - 4);
      }
    }

    /** realloc. */
    method Realloc(oaddr: nat, size: nat) returns (caddr: nat)
      requires size < WORD && malloc_ptr + 4 <= mem.Length
      requires oaddr == last_alloc || oaddr != 0 ==> Readable(State(), oaddr)
      modifies `malloc_ptr, `last_alloc, mem
      ensures (State(), caddr) == Reallocate(old(State()), oaddr, size)
    {
      hide Put, BeBytes, Be32, Allocate;
      ghost var s := State();
      if oaddr == last_alloc {
        StoreWord(oaddr - 4, size);
        malloc_ptr := Word32(oaddr + size);
        return oaddr;
      }
      caddr := Malloc(size);
      if caddr != 0 && oaddr != 0 {
        AfterMalloc(s, oaddr, size);
        CopyBlock(caddr, oaddr);
      }
    }

    static lemma AfterMalloc(s: Arena, m: nat, n: nat)
      requires n < WORD && s.ptr + 4 <= |s.mem| && m != 0 && m != s.last && Readable(s, m)
      requires Allocate(s, n).1 != 0
      ensures var (s1, c) := Allocate(s, n);
              && Be32(s1.mem, m - 4) == Be32(s.mem, m - 4)
              && m + Be32(s.mem, m - 4) <= c && c + Be32(s.mem, m - 4) <= |s1.mem|
    {
      hide Put, BeBytes, Be32;
      HeaderStays(s.mem, s.ptr, BeBytes(n), m - 4);
    }

    /** memcpy(caddr, oaddr, n) with n from the header of oaddr. */
    method CopyBlock(caddr: nat, oaddr: nat)
      requires 4 <= oaddr <= mem.Length
      requires var n := Be32(mem[..], oaddr - 4); oaddr + n <= caddr && caddr + n <= mem.Length
      modifies mem
      ensures State() == Copied(old(State()), caddr, oaddr)
    {
      hide Put, Be32;
      var n := Be32(mem[..], oaddr - 4);
      assert mem[oaddr..oaddr + n] == mem[..][oaddr..oaddr + n];
      Moves.Memcpy(mem, caddr, oaddr, n);
    }
  }
}
