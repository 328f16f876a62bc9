/** The few facts about products and division that index arithmetic needs. */
module Arithmetic {

  lemma MulMono(a: int, b: int, c: int)
    requires a <= b && 0 <= c
    ensures a * c <= b * c
  {
  }

  lemma DivModUnique(a: int, b: int, q: int, r: int)
    requires 0 < b && 0 <= r < b && a == q * b + r
    ensures a / b == q && a % b == r
  {
    var q' := a / b;
    assert a == q' * b + a % b;
    assert (q + 1) * b == q * b + b && (q' + 1) * b == q' * b + b;
    if q < q' {
      MulMono(q + 1, q', b);
    } else if q' < q {
      MulMono(q' + 1, q, b);
    }
  }

  lemma AddMultiple(a: int, k: int, b: int)
    requires 0 < b
    ensures (a + k * b) % b == a % b
    ensures (a + k * b) / b == a / b + k
  {
    assert a == (a / b) * b + a % b;
    assert (a / b + k) * b == (a / b) * b + k * b;
    DivModUnique(a + k * b, b, a / b + k, a % b);
  }

  lemma QuotientBelow(a: int, b: int, n: int)
    requires 0 <= a < n * b && 0 < b
    ensures 0 <= a / b < n
  {
    assert a == (a / b) * b + a % b;
    assert a / b < n by {
      if n <= a / b { MulMono(n, a / b, b); assert false; }
    }
  }

  lemma QuotientAtMost(a: nat, b: nat)
    requires 0 < b
    ensures a / b <= a
  {
    MulMono(1, b, a / b);
  }

  lemma QuotientMono(a: nat, b: nat, c: nat)
    requires a <= b && 0 < c
    ensures a / c <= b / c
  {
    assert a == a / c * c + a % c && b == b / c * c + b % c;
    assert (b / c + 1) * c == b / c * c + c;
    if b / c < a / c {
      MulMono(b / c + 1, a / c, c);
      assert false;
    }
  }

  lemma RoundUp(end: nat, b: nat)
    requires 0 < b
    ensures (end + b - 1) / b == if end % b == 0 then end / b else end / b + 1
  {
    var q, r := end / b, end % b;
    assert end == q * b + r && (q + 1) * b == q * b + b;
    if r == 0 {
      DivModUnique(end + b - 1, b, q, b - 1);
    } else {
      DivModUnique(end + b - 1, b, q + 1, r - 1);
    }
  }

  /** Rounding end up to whole blocks of b: the last one starts before end and reaches it. */
  lemma BlockCount(end: nat, b: nat)
    requires 0 < b && 0 < end
    ensures var c := (end + b - 1) / b;
            && 0 < c && (c - 1) * b < end <= c * b
            && end - (c - 1) * b == if end % b == 0 then b else end % b
  {
    RoundUp(end, b);
    var q, c := end / b, (end + b - 1) / b;
    assert end == q * b + end % b;
    assert (c - 1) * b == c * b - b;
    if c == q + 1 {
      assert c * b == q * b + b;
    }
  }

  /** The last block of a range of len bytes from pos on, and what is left of it. */
  lemma LastOfRange(pos: nat, len: nat, b: nat)
    requires 0 < b && 0 < len
    ensures var c := (pos + len + b - 1) / b;
            && pos / b < c && c - 1 == (pos + len - 1) / b
            && pos + len <= c * b && (c * b == pos + len <==> (pos + len) % b == 0)
  {
    BlockCount(pos + len, b);
    AddMultiple(pos + len - 1, 1, b);
    QuotientMono(pos, pos + len - 1, b);
    var c := (pos + len + b - 1) / b;
    assert (c - 1) * b == c * b - b;
  }

  /** Block i of a range [pos, end) that starts in block pos / b, i being neither
      past its last block nor, unless it is the first one, before at. */
  lemma BlockOfRange(pos: nat, end: nat, b: nat, i: nat, at: nat)
    requires 0 < b && pos < end && pos / b <= i < (end + b - 1) / b
    requires at == if i == pos / b then pos else i * b
    ensures at < end && at / b == i && at % b == if i == pos / b then pos % b else 0
    ensures i < (end + b - 1) / b - 1 ==> at - at % b + b == (i + 1) * b < end
    ensures i == (end + b - 1) / b - 1 ==>
              end - (at - at % b) == if end % b == 0 then b else end % b
  {
    var c := (end + b - 1) / b;
    BlockCount(end, b);
    assert (i + 1) * b == i * b + b;
    if i == pos / b {
      assert pos == i * b + pos % b;
    } else {
      DivModUnique(at, b, i, 0);
    }
    MulMono(i, c - 1, b);
    if i < c - 1 {
      MulMono(i + 1, c - 1, b);
    }
  }

  lemma SameQuotient(q: int, q': int, b: int, r: int)
    requires 0 < b
    ensures q * b + r == q' * b + r <==> q == q'
  {
    assert (q + 1) * b == q * b + b && (q' + 1) * b == q' * b + b;
    if q < q' {
      MulMono(q + 1, q', b);
    } else if q' < q {
      MulMono(q' + 1, q, b);
    }
  }

  lemma FourBytes(n: nat)
    ensures n % 256 + 256 * (n / 0x100 % 256) + 0x1_0000 * (n / 0x1_0000 % 256 + 256 * (n / 0x100_0000)) == n
  {
    var a := n / 0x100;
    var b := n / 0x1_0000;
    assert n == a * 0x100 + n % 0x100;
    assert b == a / 0x100 && a == b * 0x100 + a % 0x100;
    assert n / 0x100_0000 == b / 0x100 && b == b / 0x100 * 0x100 + b % 0x100;
  }
}
