/** Reading and printing numbers (loader/util.c:80-87, 185-302; loader/printf.c:66-106). */
module Numbers {
  import opened Arithmetic
  import opened CStrings

  const INT_MAX := 0x7FFF_FFFF
  const INT_MIN := -0x8000_0000
  const UINT := 0x1_0000_0000
  const MASK := 0x1000_0000  // one past 0x0FFFFFFF

  /** The value of a character as a digit, or 36 and more if it is none. */
  function DigitValue(c: char): (v: nat) {
    if '0' <= c <= '9' then c as int - '0' as int
    else if 'A' <= c <= 'Z' then c as int - 'A' as int + 10
    else if 'a' <= c <= 'z' then c as int - 'a' as int + 10
    else 255
  }

  /** The number that the digits s denote. */
  function Eval(s: string, base: nat): nat {
    if s == "" then 0 else Eval(s[..|s| - 1], base) * base + DigitValue(s[|s| - 1])
  }

  function Blanks(s: string): (n: nat)
    ensures n <= |s| && (n < |s| ==> s[n] == NUL || s[n] > ' ')
    ensures forall i :: 0 <= i < n ==> NUL < s[i] <= ' '
  {
    if s == "" || s[0] == NUL || s[0] > ' ' then 0 else 1 + Blanks(s[1..])
  }

  /** The length of the longest run of digits of a base. */
  function DigitSpan(s: string, base: nat): (n: nat)
    ensures n <= |s| && (n < |s| ==> base <= DigitValue(s[n]))
    ensures forall i :: 0 <= i < n ==> DigitValue(s[i]) < base
  {
    if s == "" || base <= DigitValue(s[0]) then 0 else 1 + DigitSpan(s[1..], base)
  }

  function Clamp(v: int): int {
    if v > INT_MAX then INT_MAX else if v < INT_MIN then INT_MIN else v
  }

  function Sign(neg: bool): int { if neg then -1 else 1 }

  predicate HexPrefix(s: string, i: nat) {
    At(s, i) == '0' && (At(s, i + 1) == 'x' || At(s, i + 1) == 'X')
  }

  /** Where the digits start and in which base they are, i being after the sign. */
  function Start(s: string, i: nat, base: nat): (r: (nat, nat))
    requires i <= |s| && (base == 0 || 2 <= base <= 36)
    ensures i <= r.0 <= |s| && 2 <= r.1 <= 36
  {
    if base == 16 then (if HexPrefix(s, i) then i + 2 else i, 16)
    else if base != 0 then (i, base)
    else if HexPrefix(s, i) then (i + 2, 16)
    else (i, if At(s, i) == '0' then 8 else 10)
  }

  function Normal(base: int): (b: nat)
    ensures b == 0 || 2 <= b <= 36
  {
    if base < 0 || base == 1 || 36 < base then 10 else base
  }

  /** The number whose sign has been read: its value and where it ends. Without
      digits it is 0 at the start of the string, or at the x of a lone 0x. */
  function AfterSign(s: string, neg: bool, signed: nat, base: nat): (r: (int, nat))
    requires signed <= |s| && (base == 0 || 2 <= base <= 36)
    ensures r.1 <= |s| && INT_MIN <= r.0 <= INT_MAX
  {
    var (start, b) := Start(s, signed, base);
    var n := DigitSpan(s[start..], b);
    if n == 0 then (0, if signed < start then start - 1 else 0)
    else (Clamp(Sign(neg) * Eval(s[start..start + n], b)), start + n)
  }

  /** Reference for strtol: the value, and the position of the first character
      after the number. */
  function Strtol(s: string, base: int): (r: (int, nat))
    ensures r.1 <= |s| && INT_MIN <= r.0 <= INT_MAX
  {
    var w := Blanks(s);
    if At(s, w) == NUL then (0, 0)
    else AfterSign(s, s[w] == '-', if s[w] == '-' || s[w] == '+' then w + 1 else w, Normal(base))
  }

  /** The test for overflow decides whether one more digit still fits. */
  lemma CutoffRight(i: nat, c: nat, base: nat)
    requires 2 <= base && c < base
    ensures var cutoff, cutlim := INT_MAX / base, INT_MAX % base;
            (i > cutoff || (i == cutoff && c > cutlim)) <==> i * base + c > INT_MAX
  {
    var cutoff, cutlim := INT_MAX / base, INT_MAX % base;
    assert INT_MAX == cutoff * base + cutlim;
    if i > cutoff {
      MulMono(cutoff + 1, i, base);
      assert (cutoff + 1) * base == cutoff * base + base;
    } else if i < cutoff {
      MulMono(i + 1, cutoff, base);
      assert (i + 1) * base == i * base + base;
    }
  }

  /** The digit loop of strtol on the text s: where it stops, the value, and
      whether it overflowed. */
  method ReadDigits(s: string, start: nat, base: nat) returns (end: nat, i: nat, overflow: bool)
    requires start <= |s| && 2 <= base <= 36
    ensures end == start + DigitSpan(s[start..], base)
    ensures overflow <==> Eval(s[start..end], base) > INT_MAX
    ensures !overflow ==> i == Eval(s[start..end], base)
  {
    hide Eval, DigitSpan, DigitValue;
    ghost var stop := start + DigitSpan(s[start..], base);
    SpanAt(s, start, base);
    NoDigits(base);
    assert s[start..start] == "";
    var cutoff, cutlim := INT_MAX / base, INT_MAX % base;
    i, overflow, end := 0, false, start;
    while At(s, end) != NUL
      invariant start <= end <= stop
      invariant overflow <==> Eval(s[start..end], base) > INT_MAX
      invariant !overflow ==> i == Eval(s[start..end], base)
      decreases |s| - end
    {
      var c := DigitValue(s[end]);
      if c >= base {
        break;
      }
      AppendDigit(s, start, end, base);
      OneMore(Eval(s[start..end], base), i, overflow, c, base);
      if i > cutoff || (i == cutoff && c > cutlim) {
        overflow := true;
      } else {
        i := i * base + c;
      }
      end := end + 1;
    }
  }

  lemma SpanAt(s: string, start: nat, base: nat)
    requires start <= |s| && base <= 36
    ensures var stop := start + DigitSpan(s[start..], base);
            && stop <= |s| && (stop < |s| ==> base <= DigitValue(s[stop]))
            && forall j :: start <= j < stop ==> DigitValue(s[j]) < base && s[j] != NUL
  {
    var n := DigitSpan(s[start..], base);
    assert start + n < |s| ==> s[start + n] == s[start..][n];
    forall j | start <= j < start + n ensures DigitValue(s[j]) < base && s[j] != NUL {
      assert s[j] == s[start..][j - start];
    }
  }

  lemma NoDigits(base: nat)
    ensures Eval("", base) == 0
  {
  }

  lemma AppendDigit(s: string, start: nat, end: nat, base: nat)
    requires start <= end < |s|
    ensures Eval(s[start..end + 1], base) == Eval(s[start..end], base) * base + DigitValue(s[end])
  {
    hide DigitValue;
    var t := s[start..end + 1];
    assert t[..|t| - 1] == s[start..end] && t[|t| - 1] == s[end];
  }

  /** One more digit after a value e that i stands for, unless it overflowed. */
  lemma OneMore(e: nat, i: nat, overflow: bool, c: nat, base: nat)
    requires 2 <= base && c < base
    requires (overflow <==> e > INT_MAX) && (!overflow ==> i == e)
    ensures var cutoff, cutlim := INT_MAX / base, INT_MAX % base;
            var over := i > cutoff || (i == cutoff && c > cutlim);
            && (e * base + c > INT_MAX <==> overflow || over)
            && (!overflow && !over ==> e * base + c == i * base + c)
  {
    CutoffRight(i, c, base);
    MulMono(1, base, e);
  }

  method SkipBlanks(nptr: string) returns (s: nat)
    ensures s == Blanks(nptr)
  {
    s := 0;
    while At(nptr, s) <= ' ' && At(nptr, s) != NUL
      invariant s <= |nptr| && Blanks(nptr) == s + Blanks(nptr[s..])
      decreases |nptr| - s
    {
      assert nptr[s..][1..] == nptr[s + 1..];
      s := s + 1;
    }
  }

  /** The prefix 0x, and the base if the caller leaves it open. */
  method SkipPrefix(nptr: string, signed: nat, base: nat) returns (s: nat, b: nat)
    requires signed <= |nptr| && (base == 0 || 2 <= base <= 36)
    ensures (s, b) == Start(nptr, signed, base)
  {
    s, b := signed, base;
    if b == 16 && At(nptr, s) == '0' && (At(nptr, s + 1) == 'X' || At(nptr, s + 1) == 'x') {
      s := s + 2;
    }
    if b == 0 {
      if At(nptr, s) == '0' {
        if At(nptr, s + 1) == 'X' || At(nptr, s + 1) == 'x' {
          s, b := s + 2, 16;
        } else {
          b := 8;
        }
      } else {
        b := 10;
      }
    }
  }

  /** strtol: positions stand for the pointers s, save and endptr. */
  method ParseNumber(nptr: string, base: int) returns (value: int, endptr: nat)
    ensures (value, endptr) == Strtol(nptr, base)
  {
    hide AfterSign, Blanks;
    var b: nat := if base < 0 || base == 1 || base > 36 then 10 else base;
    var s := SkipBlanks(nptr);
    if At(nptr, s) == NUL {
      return 0, 0;
    }
    var negative := false;
    if nptr[s] == '-' {
      negative, s := true, s + 1;
    } else if nptr[s] == '+' {
      s := s + 1;
    }
    value, endptr := Convert(nptr, negative, s, b);
  }

  /** The rest of strtol, from the prefix on. */
  method Convert(nptr: string, negative: bool, signed: nat, base: nat) returns (value: int, endptr: nat)
    requires signed <= |nptr| && (base == 0 || 2 <= base <= 36)
    requires 0 < signed ==> nptr[signed - 1] in "+-" || nptr[signed - 1] <= ' '
    ensures (value, endptr) == AfterSign(nptr, negative, signed, base)
  {
    hide Eval, DigitSpan, DigitValue, Start;
    var save, b := SkipPrefix(nptr, signed, base);
    var s, i, overflow := ReadDigits(nptr, save, b);
    if s == save {
      LonePrefix(nptr, signed, base);
      if save >= 2 && (nptr[save - 1] == 'x' || nptr[save - 1] == 'X') && nptr[save - 2] == '0' {
        return 0, save - 1;
      }
      return 0, 0;
    }
    if overflow {
      return if negative then INT_MIN else INT_MAX, s;
    }
    return Sign(negative) * i, s;
  }

  /** The characters before the digits are 0x exactly when a prefix was skipped. */
  lemma LonePrefix(s: string, signed: nat, base: nat)
    requires signed <= |s| && (base == 0 || 2 <= base <= 36)
    requires 0 < signed ==> s[signed - 1] in "+-" || s[signed - 1] <= ' '
    ensures var save := Start(s, signed, base).0;
            signed < save <==> save >= 2 && (s[save - 1] == 'x' || s[save - 1] == 'X') && s[save - 2] == '0'
  {
  }

  function DigitChar(d: nat): (c: char)
    requires d < 16
    ensures DigitValue(c) == d
  {
    "0123456789ABCDEF"[d]
  }

  /** Figures, and capital letters from ten on. */
  lemma DigitChars(d: nat)
    requires d < 16
    ensures DigitChar(d) as int == if d < 10 then '0' as int + d else 'A' as int + (d - 10)
  {
    assert "0123456789ABCDEF"[d] == if d < 10 then ('0' as int + d) as char else ('A' as int + (d - 10)) as char;
  }

  /** What printknu prints for n in base b, by its recurrence: from the second
      digit on only 28 bits are kept. */
  function Digits(n: nat, b: nat): (s: string)
    requires 8 <= b <= 16
    ensures s != "" && forall i :: 0 <= i < |s| ==> DigitValue(s[i]) < b
    decreases n
  {
    var rest := n / b % MASK;
    RestSmaller(n, b);
    (if rest == 0 then "" else Digits(rest, b)) + [DigitChar(n % b)]
  }

  lemma RestSmaller(n: nat, b: nat)
    requires 8 <= b <= 16
    ensures n / b % MASK <= n / b && 8 * (n / b) <= n
  {
    assert n == (n / b) * b + n % b;
    MulMono(8, b, n / b);
  }

  function Pow8(k: nat): nat {
    if k == 0 then 1 else 8 * Pow8(k - 1)
  }

  lemma {:induction false} DigitsLength(n: nat, b: nat, k: nat)
    requires 8 <= b <= 16 && 0 < k && n < Pow8(k)
    ensures |Digits(n, b)| <= k
    decreases k
  {
    RestSmaller(n, b);
    var rest := n / b % MASK;
    if rest != 0 {
      DigitsLength(rest, b, k - 1);
    }
  }

  lemma WordLength(n: nat, b: nat)
    requires n < UINT && 8 <= b <= 16
    ensures |Digits(n, b)| <= 11
  {
    assert Pow8(11) == 8 * Pow8(10) && Pow8(10) == 8 * Pow8(9) && Pow8(9) == 8 * Pow8(8);
    assert Pow8(8) == 8 * Pow8(7) && Pow8(7) == 8 * Pow8(6) && Pow8(6) == 8 * Pow8(5);
    assert Pow8(5) == 8 * Pow8(4) && Pow8(4) == 8 * Pow8(3) && Pow8(3) == 8 * Pow8(2);
    DigitsLength(n, b, 11);
  }

  /** printknu: the digits are produced backwards into prbuf and sent from its end. */
  method PrintUnsigned(n0: nat, b: nat) returns (out: string)
    requires n0 < UINT && 8 <= b <= 16
    ensures out == Digits(n0, b)
  {
    WordLength(n0, b);
    hide Digits, DigitChar, DigitValue;
    var prbuf := new char[24];
    var cp := FillDigits(n0, b, prbuf);
    out := "";
    while cp > 0
      invariant 0 <= cp <= 11
      invariant Digits(n0, b) == out + Backwards(prbuf[..cp])
    {
      assert prbuf[..cp][..cp - 1] == prbuf[..cp - 1];
      cp := cp - 1;
      out := out + [prbuf[cp]];
    }
  }

  lemma DigitsUnfold(n: nat, b: nat)
    requires 8 <= b <= 16
    ensures var rest := n / b % MASK;
            Digits(n, b) == (if rest == 0 then "" else Digits(rest, b)) + [DigitChar(n % b)]
  {
  }

  /** The first loop of printknu. */
  method FillDigits(n0: nat, b: nat, prbuf: array<char>) returns (cp: nat)
    requires 8 <= b <= 16 && |Digits(n0, b)| <= 11 && prbuf.Length == 24
    modifies prbuf
    ensures 0 < cp <= 11 && Digits(n0, b) == Backwards(prbuf[..cp])
  {
    hide Digits, DigitChar, DigitValue;
    var n: nat := n0;
    cp := 0;
    ghost var left := Digits(n0, b);
    while true
      invariant left == Digits(n, b) && cp + |left| <= 11
      invariant Digits(n0, b) == left + Backwards(prbuf[..cp])
      decreases n
    {
      DigitsUnfold(n, b);
      RestSmaller(n, b);
      prbuf[cp] := DigitChar(n % b);
      assert prbuf[..cp + 1][..cp] == prbuf[..cp];
      cp := cp + 1;
      left := left[..|left| - 1];
      if n / b % MASK == 0 {
        break;
      }
      n := n / b % MASK;
    }
  }

  function Backwards(s: string): (r: string)
    ensures |r| == |s|
  {
    if s == "" then "" else [s[|s| - 1]] + Backwards(s[..|s| - 1])
  }

  lemma EvalUnfold(n: nat, b: nat)
    requires 8 <= b <= 16
    ensures var rest := n / b % MASK;
            Eval(Digits(n, b), b) == (if rest == 0 then 0 else Eval(Digits(rest, b), b)) * b + n % b
  {
    var rest, s := n / b % MASK, Digits(n, b);
    assert s[..|s| - 1] == if rest == 0 then "" else Digits(rest, b);
  }

  /** The printed digits denote n exactly when dropping its last digit leaves no
      more than 28 bits: always in hex, up to 0x7FFFFFFF in octal and up to
      0x9FFFFFFF in decimal. */
  lemma {:induction false} DigitsExact(n: nat, b: nat)
    requires 8 <= b <= 16
    ensures Eval(Digits(n, b), b) == n <==> n / b < MASK
    decreases n
  {
    hide Digits, Eval;
    var q, rest := n / b, n / b % MASK;
    RestSmaller(n, b);
    EvalUnfold(n, b);
    if rest != 0 {
      RestSmaller(rest, b);
      DigitsExact(rest, b);
    }
    assert Eval(Digits(n, b), b) == rest * b + n % b;
    assert n == q * b + n % b;
    SameQuotient(q, rest, b, n % b);
  }

  lemma ExactRange(n: nat)
    requires n < UINT
    ensures n / 16 < MASK
    ensures n / 10 < MASK <==> n <= 0x9FFF_FFFF
    ensures n / 8 < MASK <==> n <= 0x7FFF_FFFF
  {
  }

  lemma NonZero(n: nat, b: nat)
    requires 0 < n < MASK && 8 <= b <= 16
    ensures n % b != 0 || n / b % MASK != 0
  {
    RestSmaller(n, b);
    assert n == (n / b) * b + n % b;
  }

  /** No leading zeros but for zero itself. */
  lemma {:induction false} LeadingDigit(n: nat, b: nat)
    requires 8 <= b <= 16 && Digits(n, b)[0] == '0'
    ensures Digits(n, b) == "0" && n % b == 0 && n / b % MASK == 0
    decreases n
  {
    hide DigitValue;
    var rest := n / b % MASK;
    RestSmaller(n, b);
    if rest != 0 {
      NonZero(rest, b);
      LeadingDigit(rest, b);
    }
  }

  /** The text is not continued by a decimal digit or the x of a prefix. */
  predicate EndsNumber(rest: string) {
    rest == "" || (10 <= DigitValue(rest[0]) && rest[0] != 'x' && rest[0] != 'X')
  }

  lemma {:induction false} SpanOfDigits(ds: string, rest: string, base: nat)
    requires forall i :: 0 <= i < |ds| ==> DigitValue(ds[i]) < base
    requires rest != "" ==> base <= DigitValue(rest[0])
    ensures DigitSpan(ds + rest, base) == |ds|
    decreases |ds|
  {
    hide DigitValue;
    if ds == "" {
      assert ds + rest == rest;
    } else {
      assert (ds + rest)[1..] == ds[1..] + rest;
      SpanOfDigits(ds[1..], rest, base);
    }
  }

  /** ds is a decimal number without needless zeros. */
  predicate Plain(ds: string) {
    ds != "" && (forall i :: 0 <= i < |ds| ==> DigitValue(ds[i]) < 10) && (ds[0] == '0' ==> ds == "0")
  }

  predicate IsSign(sign: string) { sign == "" || sign == "-" || sign == "+" }

  /** A text that strtol has to read as a number: blanks, a sign, a prefix, digits
      of base b, and no further digit. Without a prefix the digits must not look
      like one where 0x is allowed. */
  ghost predicate IsNumber(blanks: string, sign: string, prefix: string, ds: string, rest: string, base: nat, b: nat) {
    && (base == 0 || 2 <= base <= 36) && 2 <= b <= 36
    && (forall i :: 0 <= i < |blanks| ==> NUL < blanks[i] <= ' ')
    && IsSign(sign)
    && (if prefix == "" then
          && (base == 0 || base == 16 ==> !HexPrefix(ds + rest, 0))
          && b == (if base != 0 then base else if At(ds, 0) == '0' then 8 else 10)
        else (prefix == "0x" || prefix == "0X") && (base == 0 || base == 16) && b == 16)
    && (forall i :: 0 <= i < |ds| ==> DigitValue(ds[i]) < b)
    && (rest != "" ==> b <= DigitValue(rest[0]))
  }

  lemma {:induction false} BlanksOf(blanks: string, t: string)
    requires forall i :: 0 <= i < |blanks| ==> NUL < blanks[i] <= ' '
    requires t == "" || t[0] > ' '
    ensures Blanks(blanks + t) == |blanks|
    decreases |blanks|
  {
    if blanks == "" {
      assert blanks + t == t;
    } else {
      assert (blanks + t)[1..] == blanks[1..] + t;
      BlanksOf(blanks[1..], t);
    }
  }

  /** Where the digits of such a text are found. */
  lemma StartOf(text: string, at: nat, prefix: string, ds: string, rest: string, base: nat, b: nat)
    requires IsNumber("", "", prefix, ds, rest, base, b) && ds != ""
    requires at <= |text| && text[at..] == prefix + ds + rest
    ensures Start(text, at, base) == (at + |prefix|, b) && text[at + |prefix|..] == ds + rest
  {
    hide DigitValue;
    var t := prefix + ds + rest;
    assert At(text, at) == At(t, 0) && At(text, at + 1) == At(t, 1);
    assert HexPrefix(text, at) == HexPrefix(t, 0);
    if prefix == "" {
      assert t == ds + rest;
    } else {
      assert text[at..][|prefix|..] == ds + rest;
    }
  }

  lemma SliceOf(text: string, at: nat, ds: string, rest: string)
    requires at <= |text| && text[at..] == ds + rest
    ensures at + |ds| <= |text| && text[at..at + |ds|] == ds && |text| - |rest| == at + |ds|
  {
    assert text[at..at + |ds|] == text[at..][..|ds|];
  }

  lemma NumberFrom(text: string, neg: bool, at: nat, prefix: string, ds: string, rest: string, base: nat, b: nat)
    requires IsNumber("", "", prefix, ds, rest, base, b) && ds != ""
    requires at <= |text| && text[at..] == prefix + ds + rest
    ensures AfterSign(text, neg, at, base) == (Clamp(Sign(neg) * Eval(ds, b)), |text| - |rest|)
  {
    hide Eval, DigitSpan, Start, Clamp, DigitValue;
    StartOf(text, at, prefix, ds, rest, base, b);
    SpanOfDigits(ds, rest, b);
    hide IsNumber;
    SliceOf(text, at + |prefix|, ds, rest);
  }

  /** Blanks and sign are passed over. */
  lemma SignRead(blanks: string, sign: string, t: string, base: int)
    requires IsSign(sign) && forall i :: 0 <= i < |blanks| ==> NUL < blanks[i] <= ' '
    requires var signed := sign + t;
             && signed != "" && signed[0] > ' '
             && (signed[0] == '-' <==> sign == "-") && (signed[0] == '+' <==> sign == "+")
    ensures var text, at := blanks + (sign + t), |blanks| + |sign|;
            && at <= |text| && text[at..] == t
            && Strtol(text, base) == AfterSign(text, sign == "-", at, Normal(base))
  {
    hide AfterSign, Blanks, Normal;
    BlanksOf(blanks, sign + t);
    assert (blanks + (sign + t))[|blanks|] == (sign + t)[0];
  }

  /** Main result on reading: the value of the digits with its sign, clamped to 32
      bits, and the end of the digits, in every base the caller may ask for. */
  lemma StrtolReads(blanks: string, sign: string, prefix: string, ds: string, rest: string, base: int, b: nat)
    requires IsNumber(blanks, sign, prefix, ds, rest, Normal(base), b) && ds != ""
    ensures var text := blanks + (sign + (prefix + ds + rest));
            Strtol(text, base) == (Clamp(Sign(sign == "-") * Eval(ds, b)), |text| - |rest|)
  {
    hide IsNumber, AfterSign, Strtol, Eval, Clamp, DigitValue, Normal, IsSign;
    var digits := prefix + ds + rest;
    FirstOfNumber(blanks, sign, prefix, ds, rest, Normal(base), b);
    SignRead(blanks, sign, digits, base);
    NumberFrom(blanks + (sign + digits), sign == "-", |blanks| + |sign|, prefix, ds, rest, Normal(base), b);
  }

  lemma FirstOfNumber(blanks: string, sign: string, prefix: string, ds: string, rest: string, base: nat, b: nat)
    requires IsNumber(blanks, sign, prefix, ds, rest, base, b) && ds != ""
    ensures IsNumber("", "", prefix, ds, rest, base, b)
    ensures forall i :: 0 <= i < |blanks| ==> NUL < blanks[i] <= ' '
    ensures IsSign(sign)
    ensures var t := sign + (prefix + ds + rest);
            t[0] > ' ' && (t[0] == '-' <==> sign == "-") && (t[0] == '+' <==> sign == "+")
  {
    var d := prefix + ds + rest;
    assert d[0] == if prefix != "" then '0' else ds[0];
    assert sign != "" ==> (sign + d)[0] == sign[0];
    assert sign == "" ==> sign + d == d;
    assert DigitValue(d[0]) < 36;
  }

  lemma StartOfNothing(text: string, at: nat, prefix: string, rest: string, base: nat, b: nat)
    requires IsNumber("", "", prefix, "", rest, base, b)
    requires at <= |text| && text[at..] == prefix + rest
    ensures Start(text, at, base) == (at + |prefix|, b) && text[at + |prefix|..] == rest
  {
    var t := prefix + rest;
    assert At(text, at) == At(t, 0) && At(text, at + 1) == At(t, 1);
    assert HexPrefix(text, at) == HexPrefix(t, 0);
    if prefix == "" {
      assert t == rest == "" + rest;
      assert DigitValue('0') == 0;
    } else {
      assert text[at..][|prefix|..] == rest;
    }
  }

  lemma NothingFrom(text: string, neg: bool, at: nat, prefix: string, rest: string, base: nat, b: nat)
    requires IsNumber("", "", prefix, "", rest, base, b)
    requires at <= |text| && text[at..] == prefix + rest
    ensures AfterSign(text, neg, at, base) == (0, if prefix == "" then 0 else at + 1)
  {
    hide Eval, Clamp, Start, DigitSpan, DigitValue;
    StartOfNothing(text, at, prefix, rest, base, b);
    assert rest == "" + rest;
    SpanOfDigits("", rest, b);
    assert prefix != "" ==> |prefix| == 2;
    hide IsNumber;
  }

  /** Without digits there is no number: nothing is consumed, or all up to the 0 of
      a lone 0x. */
  lemma NoDigitsRead(blanks: string, sign: string, prefix: string, rest: string, base: int, b: nat)
    requires IsNumber(blanks, sign, prefix, "", rest, Normal(base), b)
    requires sign == "" && prefix == "" ==> rest == "" || (rest[0] > ' ' && rest[0] != '+' && rest[0] != '-')
    ensures Strtol(blanks + (sign + (prefix + rest)), base)
            == (0, if prefix == "" then 0 else |blanks| + |sign| + 1)
  {
    hide AfterSign, IsNumber, DigitValue, Normal, Strtol, IsSign;
    var t := prefix + rest;
    SignOnly(blanks, sign, prefix, rest, Normal(base), b);
    if sign + t == "" {
      BlanksOnly(blanks, base);
      assert blanks + (sign + t) == blanks;
    } else {
      SignRead(blanks, sign, t, base);
      NothingFrom(blanks + (sign + t), sign == "-", |blanks| + |sign|, prefix, rest, Normal(base), b);
    }
  }

  lemma BlanksOnly(blanks: string, base: int)
    requires forall i :: 0 <= i < |blanks| ==> NUL < blanks[i] <= ' '
    ensures Strtol(blanks, base) == (0, 0)
  {
    assert blanks + "" == blanks;
    BlanksOf(blanks, "");
  }

  /** The text after the blanks and the sign. */
  lemma SignOnly(blanks: string, sign: string, prefix: string, rest: string, base: nat, b: nat)
    requires IsNumber(blanks, sign, prefix, "", rest, base, b)
    requires sign == "" && prefix == "" ==> rest == "" || (rest[0] > ' ' && rest[0] != '+' && rest[0] != '-')
    ensures IsNumber("", "", prefix, "", rest, base, b) && IsSign(sign)
    ensures forall i :: 0 <= i < |blanks| ==> NUL < blanks[i] <= ' '
    ensures sign + (prefix + rest) == "" ==> prefix == ""
    ensures var text := sign + (prefix + rest);
            text != "" ==> text[0] > ' ' && (text[0] == '-' <==> sign == "-") && (text[0] == '+' <==> sign == "+")
  {
    hide DigitValue;
    var t := prefix + rest;
    var text := sign + t;
    assert prefix == "" ==> t == rest;
    assert sign == "" ==> text == t;
    assert text != "" ==> text[0] == if sign != "" then sign[0] else if prefix != "" then '0' else rest[0];
  }

  /** A text taken apart as strtol reads it. */
  datatype Parts = Parts(blanks: string, sign: string, prefix: string, ds: string, rest: string, base: nat) {
    function Text(): string { blanks + (sign + (prefix + ds + rest)) }

    /** The parts of a text for a base that the caller asks for: without sign, prefix
        and digits the blanks are all there are. */
    ghost predicate Fit(asked: int) {
      && IsNumber(blanks, sign, prefix, ds, rest, Normal(asked), base)
      && (sign == "" && prefix == "" && ds == "" ==> rest == "" || (rest[0] > ' ' && rest[0] != '+' && rest[0] != '-'))
    }

    /** The value they denote, and where they say the number ends. */
    function Number(): (int, nat) {
      if ds != "" then (Clamp(Sign(sign == "-") * Eval(ds, base)), |Text()| - |rest|)
      else (0, if prefix == "" then 0 else |blanks| + |sign| + 1)
    }
  }

  /** The prefix of a text whose sign has been taken off, and the base. */
  lemma PrefixPart(t: string, base: nat)
    requires base == 0 || 2 <= base <= 36
    ensures var (start, b) := Start(t, 0, base);
            if start == 0 then
              && (base == 0 || base == 16 ==> !HexPrefix(t, 0))
              && b == (if base != 0 then base else if At(t, 0) == '0' then 8 else 10)
            else start == 2 <= |t| && (t[..2] == "0x" || t[..2] == "0X") && (base == 0 || base == 16) && b == 16
  {
    if |t| >= 2 {
      assert t[..2] == [t[0], t[1]];
    }
  }

  /** Its digits, and what follows them. */
  lemma DigitPart(u: string, b: nat) returns (ds: string, rest: string)
    requires 2 <= b <= 36
    ensures ds + rest == u && (forall i :: 0 <= i < |ds| ==> DigitValue(ds[i]) < b)
    ensures rest != "" ==> b <= DigitValue(rest[0])
    ensures At(u, 0) == '0' <==> At(ds, 0) == '0'
  {
    var n := DigitSpan(u, b);
    ds, rest := u[..n], u[n..];
    assert DigitValue('0') == 0;
    assert n < |u| ==> rest[0] == u[n];
  }

  lemma DigitParts(t: string, base: nat) returns (p: Parts)
    requires base == 0 || 2 <= base <= 36
    ensures p.blanks == "" && p.sign == "" && p.prefix + p.ds + p.rest == t
    ensures IsNumber("", "", p.prefix, p.ds, p.rest, base, p.base)
  {
    hide DigitValue, Start, HexPrefix;
    PrefixPart(t, base);
    var (start, b) := Start(t, 0, base);
    var ds, rest := DigitPart(t[start..], b);
    if start == 0 {
      p := Parts("", "", "", ds, rest, b);
      assert t[0..] == t && "" + ds + rest == ds + rest;
    } else {
      p := Parts("", "", t[..2], ds, rest, b);
      assert t[..2] + ds + rest == t[..2] + (ds + rest) == t;
    }
  }

  /** The blanks in front of a text. */
  lemma BlankPart(text: string) returns (blanks: string, s: string)
    requires NUL !in text
    ensures blanks + s == text && (forall i :: 0 <= i < |blanks| ==> NUL < blanks[i] <= ' ')
    ensures NUL !in s && (s != "" ==> s[0] > ' ')
  {
    var w := Blanks(text);
    blanks, s := text[..w], text[w..];
    assert s != "" ==> s[0] == text[w] && text[w] in text;
  }

  lemma SignPart(s: string) returns (sign: string, t: string)
    ensures sign + t == s && IsSign(sign) && (sign == "" && s != "" ==> s[0] != '+' && s[0] != '-')
  {
    var k := if s != "" && (s[0] == '-' || s[0] == '+') then 1 else 0;
    sign, t := s[..k], s[k..];
    assert k == 1 ==> sign == [s[0]];
  }

  /** Every C string has such parts, for every base ... */
  lemma EveryText(text: string, base: int) returns (p: Parts)
    requires NUL !in text
    ensures p.Text() == text && p.Fit(base)
  {
    hide IsNumber, Normal, IsSign;
    var blanks, s := BlankPart(text);
    var sign, t := SignPart(s);
    var d := DigitParts(t, Normal(base));
    p := d.(blanks := blanks, sign := sign);
    WithSign(p, Normal(base));
    if sign == "" && d.prefix == "" && d.ds == "" {
      assert d.rest == t == s;
    }
  }

  lemma WithSign(p: Parts, base: nat)
    requires IsNumber("", "", p.prefix, p.ds, p.rest, base, p.base) && IsSign(p.sign)
    requires forall i :: 0 <= i < |p.blanks| ==> NUL < p.blanks[i] <= ' '
    ensures IsNumber(p.blanks, p.sign, p.prefix, p.ds, p.rest, base, p.base)
  {
  }

  /** ... and strtol reads what they denote: main result for every C string and base. */
  lemma StrtolIsNumber(text: string, base: int, p: Parts)
    requires p.Text() == text && p.Fit(base)
    ensures Strtol(text, base) == p.Number()
  {
    hide IsNumber, Strtol, Eval, Clamp, Normal;
    if p.ds != "" {
      StrtolReads(p.blanks, p.sign, p.prefix, p.ds, p.rest, base, p.base);
    } else {
      assert p.prefix + "" + p.rest == p.prefix + p.rest;
      NoDigitsRead(p.blanks, p.sign, p.prefix, p.rest, base, p.base);
    }
  }

  /** Digits: ten figures, then the letters of the alphabet in either case. */
  lemma DigitValues(k: nat, c: char)
    requires k < 36
    ensures DigitValue(c) == k <==>
              if k < 10 then c as int == '0' as int + k
              else c as int == 'a' as int + (k - 10) || c as int == 'A' as int + (k - 10)
  {
  }

  /** Main result on overflow: the signed value of the digits if it fits into 32 bits,
      and else the nearest value that does. */
  lemma Saturates(text: string, base: int, p: Parts)
    requires p.Text() == text && p.Fit(base) && p.ds != ""
    ensures var v: int, r := if p.sign == "-" then 0 - Eval(p.ds, p.base) else Eval(p.ds, p.base), Strtol(text, base);
            && r.1 == |text| - |p.rest|
            && (-0x8000_0000 <= v <= 0x7FFF_FFFF ==> r.0 == v)
            && (0x7FFF_FFFF < v ==> r.0 == 0x7FFF_FFFF)
            && (v < -0x8000_0000 ==> r.0 == -0x8000_0000)
  {
    hide IsNumber, Strtol, Eval;
    StrtolIsNumber(text, base, p);
  }

  /** A base outside 2 to 36, other than 0, is taken for 10. */
  lemma OtherBase(text: string, base: int)
    requires base < 0 || base == 1 || 36 < base
    ensures Strtol(text, base) == Strtol(text, 10)
  {
    hide AfterSign, Blanks;
  }

  lemma DecimalIsNumber(sign: string, ds: string, rest: string, base: nat)
    requires (base == 0 || base == 10) && (sign == "" || sign == "-")
    requires Plain(ds) && EndsNumber(rest)
    ensures IsNumber("", sign, "", ds, rest, base, if base == 0 && ds == "0" then 8 else 10)
  {
    var t := ds + rest;
    assert t[0] == ds[0] && At(t, 1) == if |ds| > 1 then ds[1] else At(rest, 0);
    assert |ds| > 1 ==> DigitValue(ds[1]) < 10;
    assert !HexPrefix(t, 0);
  }

  /** A decimal number without needless zeros is read back, in base 10 and when
      the base is left open, whatever follows it. */
  lemma ReadDecimal(neg: bool, ds: string, rest: string, base: nat)
    requires base == 0 || base == 10
    requires Plain(ds) && EndsNumber(rest)
    ensures var text := (if neg then "-" else "") + ds + rest;
            Strtol(text, base) == (Clamp(Sign(neg) * Eval(ds, 10)), |text| - |rest|)
  {
    hide IsNumber, Strtol, Eval, Clamp, EndsNumber;
    var sign := if neg then "-" else "";
    var b := if base == 0 && ds == "0" then 8 else 10;
    DecimalIsNumber(sign, ds, rest, base);
    StrtolReads("", sign, "", ds, rest, base, b);
    assert "" + (sign + ("" + ds + rest)) == sign + ds + rest;
    if ds == "0" {
      ZeroDigit();
    }
  }

  lemma ZeroDigit()
    ensures Eval("0", 8) == Eval("0", 10)
  {
    assert "0"[..0] == "";
  }

  /** What printkns prints for a 32-bit value above the smallest one. */
  function SignedDigits(n: int, b: nat): string
    requires 8 <= b <= 16
  {
    if n < 0 then "-" + Digits(-n, b) else Digits(n, b)
  }

  /** strtol undoes printkns on every value above -2^31. */
  lemma SignedRoundTrip(n: int, base: nat)
    requires INT_MIN < n <= INT_MAX && (base == 0 || base == 10)
    ensures Strtol(SignedDigits(n, 10), base) == (n, |SignedDigits(n, 10)|)
  {
    hide Strtol, Digits;
    var m: nat := if n < 0 then -n else n;
    DecimalText(m, n < 0, "", base);
    assert SignedDigits(n, 10) == (if n < 0 then "-" else "") + Digits(m, 10) + "";
  }

  lemma DecimalText(n: nat, neg: bool, rest: string, base: nat)
    requires n <= 0x9FFF_FFFF && EndsNumber(rest) && (base == 0 || base == 10)
    ensures var text := (if neg then "-" else "") + Digits(n, 10) + rest;
            Strtol(text, base) == (Clamp(Sign(neg) * n), |text| - |rest|)
  {
    hide Digits, Eval, Strtol, EndsNumber;
    var ds := Digits(n, 10);
    if ds[0] == '0' {
      LeadingDigit(n, 10);
    }
    ExactRange(n);
    DigitsExact(n, 10);
    ReadDecimal(neg, ds, rest, base);
  }

  /** printkns, from the sign on. */
  method PrintSigned(n: int, b: nat) returns (out: string)
    requires INT_MIN < n <= INT_MAX && 8 <= b <= 16
    ensures out == SignedDigits(n, b)
  {
    hide Digits, Eval, DigitValue;
    out := "";
    var m: nat := if n < 0 then -n else n;
    if n < 0 {
      out := "-";
    }
    var digits := PrintUnsigned(m, b);
    out := out + digits;
  }
}
