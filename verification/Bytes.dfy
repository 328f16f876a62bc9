/** Bytes, results and memory images shared by the loader's modules. */
module Bytes {
  import Arithmetic

  type byte = b: int | 0 <= b < 256

  const WORD := 0x1_0000_0000  // one past the largest 32-bit unsigned value

  datatype Option<+T> = None | Some(value: T)

  /** The error codes of quik_err_t that the modelled code returns. Undefined is
      not one of them: it marks inputs on which the C code has no defined
      behaviour (it loops forever or writes outside a buffer). */
  datatype Error =
    | ShortRead | NotMac | PartNotFound | PartBeyond
    | BadPath | NotFound | NotDir | NotReg | NotExt2 | Corrupt | Loop
    | NotElf | WrongElf | NotLoadable | OldTooBig
    | NoMem | EnvBad | Undefined

  datatype Result<+T> = Ok(value: T) | Err(error: Error) {
    predicate IsFailure() { Err? }

    function PropagateFailure<U>(): Result<U>
      requires Err?
    {
      Err(error)
    }

    function Extract(): T
      requires Ok?
    {
      value
    }
  }

  function Min(a: int, b: int): int { if a <= b then a else b }

  function Max(a: int, b: int): int { if a <= b then b else a }

  /** The memory image m with the bytes w stored from address a on. */
  function Put<T>(m: seq<T>, a: nat, w: seq<T>): (r: seq<T>)
    requires a + |w| <= |m|
    ensures |r| == |m|
    ensures forall i {:trigger r[i]} :: 0 <= i < |m| ==> r[i] == if a <= i < a + |w| then w[i - a] else m[i]
  {
    m[..a] + w + m[a + |w|..]
  }

  function Zeros(n: nat): (z: seq<byte>)
    ensures |z| == n && forall i :: 0 <= i < n ==> z[i] == 0
  {
    seq(n, i => 0)
  }

  /** Little-endian and big-endian fields of on-disk and in-memory structures. */
  function Le16(s: seq<byte>, o: nat): (n: nat)
    requires o + 2 <= |s|
    ensures n < 0x1_0000
  {
    (s[o] as int) + 256 * (s[o + 1] as int)
  }

  function Le32(s: seq<byte>, o: nat): (n: nat)
    requires o + 4 <= |s|
    ensures n < WORD
  {
    Le16(s, o) + 0x1_0000 * Le16(s, o + 2)
  }

  function Be16(s: seq<byte>, o: nat): (n: nat)
    requires o + 2 <= |s|
    ensures n < 0x1_0000
  {
    256 * (s[o] as int) + (s[o + 1] as int)
  }

  function Be32(s: seq<byte>, o: nat): (n: nat)
    requires o + 4 <= |s|
    ensures n < WORD
  {
    0x1_0000 * Be16(s, o) + Be16(s, o + 2)
  }

  /** A 32-bit number as it is stored, least or most significant byte first. */
  function LeBytes(n: nat): (s: seq<byte>)
    requires n < WORD
    ensures |s| == 4
  {
    [n % 256, n / 0x100 % 256, n / 0x1_0000 % 256, n / 0x100_0000]
  }

  function BeBytes(n: nat): (s: seq<byte>)
    requires n < WORD
    ensures |s| == 4
  {
    [n / 0x100_0000, n / 0x1_0000 % 256, n / 0x100 % 256, n % 256]
  }

  lemma Le32At(s: seq<byte>, o: nat, n: nat)
    requires o + 4 <= |s| && n < WORD && s[o..o + 4] == LeBytes(n)
    ensures Le32(s, o) == n
  {
    var t := s[o..o + 4];
    assert t[0] == s[o] && t[1] == s[o + 1] && t[2] == s[o + 2] && t[3] == s[o + 3];
    Arithmetic.FourBytes(n);
  }

  lemma Be32At(s: seq<byte>, o: nat, n: nat)
    requires o + 4 <= |s| && n < WORD && s[o..o + 4] == BeBytes(n)
    ensures Be32(s, o) == n
  {
    var t := s[o..o + 4];
    assert t[0] == s[o] && t[1] == s[o + 1] && t[2] == s[o + 2] && t[3] == s[o + 3];
    Arithmetic.FourBytes(n);
  }

  lemma Le16At(s: seq<byte>, o: nat, n: nat)
    requires o + 2 <= |s| && n < 0x1_0000 && s[o..o + 2] == [n % 256, n / 256]
    ensures Le16(s, o) == n
  {
    var t := s[o..o + 2];
    assert t[0] == s[o] && t[1] == s[o + 1];
  }

  lemma Be16At(s: seq<byte>, o: nat, n: nat)
    requires o + 2 <= |s| && n < 0x1_0000 && s[o..o + 2] == [n / 256, n % 256]
    ensures Be16(s, o) == n
  {
    var t := s[o..o + 2];
    assert t[0] == s[o] && t[1] == s[o + 1];
  }

  /** What a C string function sees of the bytes s: everything before the first NUL. */
  function CStr(s: seq<byte>): (t: seq<byte>)
    ensures |t| <= |s| && t == s[..|t|]
    ensures 0 !in t
    ensures |t| < |s| ==> s[|t|] == 0
  {
    if s == [] || s[0] == 0 then [] else [s[0]] + CStr(s[1..])
  }

  /** Those three facts determine the C string. */
  lemma CStrUnique(s: seq<byte>, t: seq<byte>)
    requires |t| <= |s| && t == s[..|t|] && 0 !in t
    requires |t| < |s| ==> s[|t|] == 0
    ensures CStr(s) == t
  {
    assert forall i :: 0 <= i < |t| ==> t[i] in t && t[i] == s[i];
    if s != [] && s[0] != 0 {
      assert |t| > 0;
      assert t[0] == s[0];
      assert t[1..] == s[1..][..|t| - 1];
      CStrUnique(s[1..], t[1..]);
    }
  }
}
