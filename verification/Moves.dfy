/** Block moves and fills of loader/string.S, phase by phase. Memory is an array
    of bytes indexed by address, so alignment is the address modulo 4. */
module Moves {
  import opened Bytes

  /** Store the bytes of the registers w at address a. */
  method Store(mem: array<byte>, a: nat, w: seq<byte>)
    requires a + |w| <= mem.Length
    modifies mem
    ensures mem[..] == Put(old(mem[..]), a, w)
  {
    forall i | 0 <= i < |w| {
      mem[a + i] := w[i];
    }
  }

  /** Load n bytes at s into registers, then store them at d. */
  method Transfer(mem: array<byte>, d: nat, s: nat, n: nat)
    requires d + n <= mem.Length && s + n <= mem.Length
    modifies mem
    ensures mem[..] == Put(old(mem[..]), d, old(mem[s..s + n]))
  {
    var regs := mem[s..s + n];
    Store(mem, d, regs);
  }

  /** Memory m with bytes lo..hi of the block at src copied to the block at dst. */
  function Moved(m: seq<byte>, dst: nat, src: nat, lo: nat, hi: nat): (r: seq<byte>)
    requires lo <= hi && dst + hi <= |m| && src + hi <= |m|
    ensures |r| == |m|
  {
    Put(m, dst + lo, m[src + lo..src + hi])
  }

  lemma MovedAll(m: seq<byte>, dst: nat, src: nat, n: nat)
    requires dst + n <= |m| && src + n <= |m|
    ensures Moved(m, dst, src, 0, n) == Put(m, dst, m[src..src + n])
    ensures Moved(m, dst, src, 0, 0) == m == Moved(m, dst, src, n, n)
  {
  }

  /** Copying upwards, the source bytes still needed are never overwritten. */
  lemma UpStep(m: seq<byte>, dst: nat, src: nat, k: nat, n: nat)
    requires dst + k + n <= |m| && src + k + n <= |m|
    requires dst <= src || src + k + n <= dst
    ensures var was := Moved(m, dst, src, 0, k);
            Put(was, dst + k, was[src + k..src + k + n]) == Moved(m, dst, src, 0, k + n)
  {
    var was := Moved(m, dst, src, 0, k);
    assert was[src + k..src + k + n] == m[src + k..src + k + n];
  }

  /** Copying downwards they are not either, when the destination lies above. */
  lemma DownStep(m: seq<byte>, dst: nat, src: nat, k: nat, n: nat, end: nat)
    requires k + n <= end && dst + end <= |m| && src + end <= |m|
    requires src <= dst
    ensures var was := Moved(m, dst, src, k + n, end);
            Put(was, dst + k, was[src + k..src + k + n]) == Moved(m, dst, src, k, end)
  {
    var was := Moved(m, dst, src, k + n, end);
    assert was[src + k..src + k + n] == m[src + k..src + k + n];
  }

  /** Copying upwards does not meet bytes it has written. */
  predicate Ahead(dst: nat, src: nat, n: nat) { dst <= src || src + n <= dst }

  /** Memory r differs from m at most in the n bytes from dst on. */
  ghost predicate Framed(m: seq<byte>, r: seq<byte>, dst: nat, n: nat) {
    |r| == |m| && dst + n <= |m| && r[..dst] == m[..dst] && r[dst + n..] == m[dst + n..]
  }

  lemma FrameStep(m: seq<byte>, r: seq<byte>, dst: nat, n: nat, k: nat, w: seq<byte>)
    requires Framed(m, r, dst, n) && k + |w| <= n
    ensures Framed(m, Put(r, dst + k, w), dst, n)
  {
    var t := Put(r, dst + k, w);
    assert t[..dst] == r[..dst] && t[dst + n..] == r[dst + n..];
  }

  /** Memory r after k of n bytes of m have been copied upwards. */
  ghost predicate UpTo(m: seq<byte>, r: seq<byte>, dst: nat, src: nat, k: nat, n: nat) {
    && k <= n && src + n <= |m| && Framed(m, r, dst, n)
    && (Ahead(dst, src, n) ==> r == Moved(m, dst, src, 0, k))
  }

  /** Load and store size bytes going upwards, k of n being done. */
  method Up(mem: array<byte>, ghost m: seq<byte>, dst: nat, src: nat, k: nat, size: nat, ghost n: nat)
    requires k + size <= n && UpTo(m, mem[..], dst, src, k, n)
    modifies mem
    ensures UpTo(m, mem[..], dst, src, k + size, n)
  {
    hide Put, Moved, Framed;
    assert |m| == mem.Length && dst + n <= mem.Length by { FramedLength(m, mem[..], dst, n); }
    if Ahead(dst, src, n) {
      UpStep(m, dst, src, k, size);
    }
    assert mem[src + k..src + k + size] == mem[..][src + k..src + k + size];
    FrameStep(m, mem[..], dst, n, k, mem[src + k..src + k + size]);
    Transfer(mem, dst + k, src + k, size);
  }

  lemma FramedLength(m: seq<byte>, r: seq<byte>, dst: nat, n: nat)
    requires Framed(m, r, dst, n)
    ensures |r| == |m| && dst + n <= |m|
  {
  }

  /** The same going downwards, from k + n to k. */
  method Down(mem: array<byte>, ghost m: seq<byte>, dst: nat, src: nat, k: nat, n: nat, ghost end: nat)
    requires |m| == mem.Length && k + n <= end && dst + end <= mem.Length && src + end <= mem.Length
    requires src <= dst
    requires mem[..] == Moved(m, dst, src, k + n, end)
    modifies mem
    ensures mem[..] == Moved(m, dst, src, k, end)
  {
    hide Put, Moved;
    DownStep(m, dst, src, k, n, end);
    assert mem[src + k..src + k + n] == mem[..][src + k..src + k + n];
    Transfer(mem, dst + k, src + k, n);
  }

  lemma UpNone(m: seq<byte>, dst: nat, src: nat, n: nat)
    requires dst + n <= |m| && src + n <= |m|
    ensures UpTo(m, m, dst, src, 0, n)
  {
    MovedAll(m, dst, src, 0);
  }

  lemma UpAll(m: seq<byte>, r: seq<byte>, dst: nat, src: nat, n: nat)
    requires UpTo(m, r, dst, src, n, n)
    ensures dst + n <= |m| && Framed(m, r, dst, n)
    ensures Ahead(dst, src, n) ==> r == Put(m, dst, m[src..src + n])
  {
    MovedAll(m, dst, src, n);
  }

  /** memcpy: bytes up to a word boundary of the destination, then eight bytes at
      a time, then a word, then bytes. It copies unless the destination starts
      inside the source, and writes nowhere else even then. */
  method Memcpy(mem: array<byte>, dst: nat, src: nat, n: nat)
    requires dst + n <= mem.Length && src + n <= mem.Length
    modifies mem
    ensures Ahead(dst, src, n) ==> mem[..] == Put(old(mem[..]), dst, old(mem[src..src + n]))
    ensures Framed(old(mem[..]), mem[..], dst, n)
  {
    hide Moved, Put, UpTo, Framed;
    ghost var m := mem[..];
    UpNone(m, dst, src, n);
    var k, left := 0, n;
    if left / 8 != 0 {
      if dst % 4 != 0 {
        var ctr := 4 - dst % 4;
        left := left - ctr;
        while ctr != 0
          invariant 0 <= ctr && 0 <= left && k + ctr + left == n
          invariant UpTo(m, mem[..], dst, src, k, n)
        {
          Up(mem, m, dst, src, k, 1, n);
          k, ctr := k + 1, ctr - 1;
        }
      }
      var ctr := left / 8;
      left := left % 8;
      while ctr != 0
        invariant 0 <= ctr && k + 8 * ctr + left == n
        invariant UpTo(m, mem[..], dst, src, k, n)
      {
        Up(mem, m, dst, src, k, 8, n);
        k, ctr := k + 8, ctr - 1;
      }
    }
    if 4 <= left {
      Up(mem, m, dst, src, k, 4, n);
      k, left := k + 4, left - 4;
    }
    while left != 0
      invariant 0 <= left && k + left == n
      invariant UpTo(m, mem[..], dst, src, k, n)
    {
      Up(mem, m, dst, src, k, 1, n);
      k, left := k + 1, left - 1;
    }
    UpAll(m, mem[..], dst, src, n);
  }

  /** backwards_memcpy: the same phases from the ends down. */
  method BackwardsMemcpy(mem: array<byte>, dst: nat, src: nat, n: nat)
    requires dst + n <= mem.Length && src + n <= mem.Length
    requires src <= dst
    modifies mem
    ensures mem[..] == Put(old(mem[..]), dst, old(mem[src..src + n]))
  {
    hide Moved, Put;
    ghost var m := mem[..];
    MovedAll(m, dst, src, n);
    var k := n;
    if k / 8 != 0 {
      var ctr := (dst + n) % 4;
      ghost var stop := n - ctr;
      while ctr != 0
        invariant 0 <= ctr && k == stop + ctr && k <= n
        invariant mem[..] == Moved(m, dst, src, k, n)
      {
        Down(mem, m, dst, src, k - 1, 1, n);
        k, ctr := k - 1, ctr - 1;
      }
      var left := k % 8;
      ctr := k / 8;
      while ctr != 0
        invariant 0 <= ctr && k == 8 * ctr + left && k <= n
        invariant mem[..] == Moved(m, dst, src, k, n)
      {
        Down(mem, m, dst, src, k - 8, 8, n);
        k, ctr := k - 8, ctr - 1;
      }
    }
    if 4 <= k {
      Down(mem, m, dst, src, k - 4, 4, n);
      k := k - 4;
    }
    while k != 0
      invariant 0 <= k <= n
      invariant mem[..] == Moved(m, dst, src, k, n)
    {
      Down(mem, m, dst, src, k - 1, 1, n);
      k := k - 1;
    }
  }

  /** memmove (section 7.21.2.2 of ISO C99): for every overlap, alignment and
      length the destination ends up with the old source bytes and nothing else
      changes. */
  method Memmove(mem: array<byte>, dst: nat, src: nat, n: nat)
    requires dst + n <= mem.Length && src + n <= mem.Length
    modifies mem
    ensures mem[..] == Put(old(mem[..]), dst, old(mem[src..src + n]))
  {
    if dst > src {
      BackwardsMemcpy(mem, dst, src, n);
    } else {
      Memcpy(mem, dst, src, n);
    }
  }

  function Fill(c: byte, n: nat): (w: seq<byte>)
    ensures |w| == n && forall i :: 0 <= i < n ==> w[i] == c
  {
    seq(n, i => c)
  }

  /** Memory m with the first k bytes of the block at dst set to c. */
  function Filled(m: seq<byte>, dst: nat, c: byte, k: nat): (r: seq<byte>)
    requires dst + k <= |m|
    ensures |r| == |m|
  {
    Put(m, dst, Fill(c, k))
  }

  /** A store of n more bytes that starts no later than where the fill has got to. */
  method StoreMore(mem: array<byte>, ghost m: seq<byte>, dst: nat, c: byte, ghost k: nat, at: nat, n: nat)
    requires |m| == mem.Length && dst + k <= mem.Length && mem[..] == Filled(m, dst, c, k)
    requires dst <= at <= dst + k && at + n <= mem.Length
    modifies mem
    ensures mem[..] == Filled(m, dst, c, Max(k, at + n - dst))
  {
    Store(mem, at, Fill(c, n));
  }

  /** memset: a word at the start, further words on word boundaries (the first of
      them may overlap the start), then bytes. */
  method Memset(mem: array<byte>, dst: nat, c: byte, n: nat)
    requires dst + n <= mem.Length
    modifies mem
    ensures mem[..] == Put(old(mem[..]), dst, Fill(c, n))
  {
    hide Put, Fill;
    ghost var m := mem[..];
    ghost var k := 0;
    FilledNone(m, dst, c);
    var at, left := dst, n;
    if 4 <= n {
      StoreMore(mem, m, dst, c, 0, dst, 4);
      k := 4;
      if n == 4 {
        return;
      }
      var over := dst % 4;
      left := n + over;
      at := dst - over + 4;
      var ctr := left / 4 - 1;
      left := left % 4;
      while ctr != 0
        invariant 0 <= ctr && dst < at && at + 4 * ctr + left == dst + n
        invariant k == Max(4, at - dst) && mem[..] == Filled(m, dst, c, k)
      {
        StoreMore(mem, m, dst, c, k, at, 4);
        ctr, at := ctr - 1, at + 4;
        k := Max(k, at - dst);
      }
    }
    while left != 0
      invariant 0 <= left && dst <= at && at + left == dst + n
      invariant k == Max(if 4 <= n then 4 else 0, at - dst) && mem[..] == Filled(m, dst, c, k)
    {
      StoreMore(mem, m, dst, c, k, at, 1);
      at, left := at + 1, left - 1;
      k := Max(k, at - dst);
    }
  }

  lemma FilledNone(m: seq<byte>, dst: nat, c: byte)
    requires dst <= |m|
    ensures Filled(m, dst, c, 0) == m
  {
  }
}
