/** Path specifications device:part/path (loader/file.c:118-199, loader/util.c:25-33,
    loader/printf.c:109-122). */
module PathSpec {
  import opened Bytes
  import opened CStrings
  import opened Numbers

  /** path_t. */
  datatype Path = Path(device: string, part: nat, path: string)

  /** env_dev_t, when its device and partition are set. */
  datatype Device = Device(device: string, part: nat)

  function Chomp(s: string): (t: string)
    ensures t != "" ==> t[0] != ' '
    ensures |t| <= |s| && t == s[|s| - |t|..]
    ensures s != "" && s[0] != ' ' ==> t == s
  {
    if s != "" && s[0] == ' ' then Chomp(s[1..]) else s
  }

  /** The position of the first colon, or the length of the string. */
  function Colon(s: string): (k: nat)
    ensures k <= |s| && ':' !in s[..k] && (k < |s| ==> s[k] == ':')
  {
    if s == "" || s[0] == ':' then 0 else 1 + Colon(s[1..])
  }

  /** The path part of a specification; empty stands for the root directory. */
  function FsPath(s: string): Result<string> {
    if s == "" then Ok("/") else if s[0] == '/' then Ok(s) else Err(BadPath)
  }

  /** Reference for file_path. Without a colon the default device is used; with
      one, a device and a partition number have to be there. */
  function FilePath(spec: string, default: Option<Device>): Result<Path> {
    var t := Chomp(spec);
    var k := Colon(t);
    if k == |t| then
      if default.None? then Err(EnvBad)
      else
        var path :- FsPath(t);
        Ok(Path(default.value.device, default.value.part, path))
    else Explicit(t[..k], t[k + 1..])
  }

  /** A device and what follows the colon. */
  function Explicit(device: string, after: string): Result<Path> {
    if device == "" then Err(BadPath)
    else
      var num := Strtol(after, 0);
      if num.1 == 0 then Err(BadPath)
      else
        var path :- FsPath(after[num.1..]);
        Ok(Path(device, num.0 % UINT, path))
  }

  /** What printkp prints. */
  function Printed(p: Path): string {
    p.device + ":" + Digits(p.part, 10) + p.path
  }

  method Print(p: Path) returns (out: string)
    requires p.part < UINT
    ensures out == Printed(p)
  {
    var part := PrintUnsigned(p.part, 10);
    out := p.device + ":" + part + p.path;
  }

  /** What can be checked of a path before printing it. */
  predicate Printable(p: Path) {
    && p.device != "" && ':' !in p.device && p.device[0] != ' '
    && p.part <= INT_MAX
    && p.path != "" && p.path[0] == '/'
  }

  lemma {:induction false} ColonAt(device: string, rest: string)
    requires ':' !in device
    ensures Colon(device + ":" + rest) == |device|
    decreases |device|
  {
    var s := device + ":" + rest;
    if device != "" {
      assert device[0] in device;
      assert s[1..] == device[1..] + ":" + rest;
      ColonAt(device[1..], rest);
    }
  }

  /** Reading the partition number that was printed. */
  lemma PrintedNumber(part: nat, path: string)
    requires part <= INT_MAX && path != "" && path[0] == '/'
    ensures var s := Digits(part, 10) + path;
            Strtol(s, 0) == (part as int, |Digits(part, 10)|) && s[|Digits(part, 10)|..] == path
  {
    hide Digits, Strtol;
    DecimalText(part, false, path, 0);
    assert "" + Digits(part, 10) + path == Digits(part, 10) + path;
  }

  /** A printed path with a proper device is taken apart where it was put together. */
  lemma TakenApart(p: Path, default: Option<Device>)
    requires p.device != "" && ':' !in p.device && p.device[0] != ' '
    ensures FilePath(Printed(p), default) == Explicit(p.device, Digits(p.part, 10) + p.path)
  {
    hide Digits, Colon, Chomp, Explicit;
    var s, after := Printed(p), Digits(p.part, 10) + p.path;
    assert s[0] == p.device[0];
    assert s == p.device + ":" + after;
    ColonAt(p.device, after);
    assert s[..|p.device|] == p.device && s[|p.device| + 1..] == after;
  }

  /** Leading blanks are dropped, and nothing else. */
  lemma {:induction false} BlanksDropped(blanks: string, t: string)
    requires (forall i :: 0 <= i < |blanks| ==> blanks[i] == ' ') && (t != "" ==> t[0] != ' ')
    ensures Chomp(blanks + t) == t
    decreases |blanks|
  {
    if blanks == "" {
      assert blanks + t == t;
    } else {
      assert (blanks + t)[0] == blanks[0] && (blanks + t)[1..] == blanks[1..] + t;
      BlanksDropped(blanks[1..], t);
    }
  }

  /** Without a colon the whole is a path on the default device: absolute, or empty for
      the root directory. */
  lemma ShortForm(blanks: string, t: string, default: Option<Device>)
    requires (forall i :: 0 <= i < |blanks| ==> blanks[i] == ' ') && (t != "" ==> t[0] != ' ') && ':' !in t
    ensures FilePath(blanks + t, default) ==
            match default
            case None => Err(EnvBad)
            case Some(d) =>
              if t == "" then Ok(Path(d.device, d.part, "/"))
              else if t[0] == '/' then Ok(Path(d.device, d.part, t))
              else Err(BadPath)
  {
    hide Explicit, Chomp, Colon;
    BlanksDropped(blanks, t);
    assert t[..|t|] == t;
    ColonIs(t, |t|);
  }

  lemma ExplicitShape(device: string, after: string, p: Path)
    requires Explicit(device, after) == Ok(p)
    ensures p.device == device != "" && p.path != "" && p.path[0] == '/'
  {
    hide Strtol;
  }

  /** What came out of a specification with a colon has these properties. */
  lemma ReadPathShape(spec: string, default: Option<Device>, p: Path)
    requires FilePath(spec, default) == Ok(p) && Colon(Chomp(spec)) < |Chomp(spec)|
    ensures p.device != "" && ':' !in p.device && p.device[0] != ' '
    ensures p.path != "" && p.path[0] == '/'
  {
    hide Explicit, Colon, Chomp;
    var t := Chomp(spec);
    var k := Colon(t);
    ExplicitShape(t[..k], t[k + 1..], p);
    assert t[..k][0] == t[0];
  }

  lemma ReadsBack(p: Path)
    requires Printable(p)
    ensures Explicit(p.device, Digits(p.part, 10) + p.path) == Ok(p)
  {
    hide Digits, Strtol;
    PrintedNumber(p.part, p.path);
  }

  lemma PartFits(device: string, p: Path)
    requires Explicit(device, Digits(p.part, 10) + p.path) == Ok(p)
    ensures p.part <= INT_MAX
  {
    hide Digits, Strtol;
    Unsigned(p.part, p.path);
  }

  /** Main result: a printed path is read back as itself exactly when it is
      printable; whatever the default device. */
  lemma RoundTrip(p: Path, default: Option<Device>)
    requires p.part < UINT
    ensures FilePath(Printed(p), default) == Ok(p) <==> Printable(p)
  {
    hide Digits, FilePath, Explicit, Printed, Chomp, Colon;
    if Printable(p) {
      TakenApart(p, default);
      ReadsBack(p);
    }
    if FilePath(Printed(p), default) == Ok(p) {
      HasColon(p);
      ReadPathShape(Printed(p), default, p);
      TakenApart(p, default);
      PartFits(p.device, p);
    }
  }

  lemma HasColon(p: Path)
    ensures var t := Chomp(Printed(p)); Colon(t) < |t|
  {
    hide Digits;
    var s := Printed(p);
    var t := Chomp(s);
    assert s[|p.device|] == ':';
    assert Colon(t) < |t| by {
      OnlyBlanksGone(s, |p.device|);
    }
  }

  lemma {:induction false} OnlyBlanksGone(s: string, k: nat)
    requires k < |s| && s[k] == ':'
    ensures ':' in Chomp(s)
    decreases |s|
  {
    if s[0] == ' ' {
      OnlyBlanksGone(s[1..], k - 1);
    }
  }

  /** A number that starts with a digit is not negative. */
  lemma Unsigned(part: nat, path: string)
    ensures 0 <= Strtol(Digits(part, 10) + path, 0).0 <= INT_MAX
  {
    hide Eval, DigitSpan, Start;
    var s := Digits(part, 10) + path;
    assert s[0] == Digits(part, 10)[0];
    assert '0' <= s[0] <= '9';
    assert Blanks(s) == 0;
  }

  lemma {:induction false} ColonIs(t: string, k: nat)
    requires k <= |t| && ':' !in t[..k] && (k < |t| ==> t[k] == ':')
    ensures Colon(t) == k
    decreases k
  {
    if 0 < k {
      assert t[0] == t[..k][0] && t[1..][..k - 1] == t[..k][1..];
      ColonIs(t[1..], k - 1);
    }
  }

  /** chomp, on a buffer that holds the string s. */
  method ChompAt(buf: array<char>, ghost s: string) returns (p: nat)
    requires buf[..] == s + [NUL]
    ensures p <= |s| && Chomp(s) == s[p..]
  {
    p := 0;
    while buf[p] == ' '
      invariant p <= |s| && Chomp(s) == Chomp(s[p..])
      decreases |s| - p
    {
      assert s[p..][0] == ' ' && s[p..][1..] == s[p + 1..];
      p := p + 1;
    }
    assert p < |s| ==> s[p..][0] == buf[p];
  }

  /** strchr(p, ':'), or the end of the string. */
  method ColonFrom(buf: array<char>, ghost s: string, p: nat) returns (c: nat)
    requires buf[..] == s + [NUL] && NUL !in s && p <= |s|
    ensures c == p + Colon(s[p..]) && (buf[c] == NUL <==> c == |s|)
  {
    c := p;
    while buf[c] != ':' && buf[c] != NUL
      invariant p <= c <= |s| && ':' !in s[p..c]
      decreases |s| - c
    {
      assert s[p..c + 1] == s[p..c] + [s[c]];
      c := c + 1;
    }
    assert s[p..][..c - p] == s[p..c];
    assert c < |s| ==> s[p..][c - p] == s[c] && s[c] in s;
    ColonIs(s[p..], c - p);
  }

  /** file_path: it takes a copy of the specification apart in place, ending the
      device with a NUL where the colon was. */
  method ParsePath(pathspec: string, default: Option<Device>) returns (r: Result<Path>)
    requires NUL !in pathspec
    ensures r == FilePath(pathspec, default)
  {
    hide Explicit, Chomp, Colon, FsPath, Text;
    var buf := new char[|pathspec| + 1](i requires 0 <= i => if i < |pathspec| then pathspec[i] else NUL);
    assert buf[..] == pathspec + [NUL];
    var p := ChompAt(buf, pathspec);
    var c := ColonFrom(buf, pathspec, p);
    ghost var t := pathspec[p..];
    assert buf[p..] == t + [NUL] && t + [NUL] == t + [NUL] + [];
    if buf[c] == NUL {
      if default.None? {
        return Err(EnvBad);
      }
      TextOf(t, []);
      return WithPath(default.value.device, default.value.part, Text(buf[p..]));
    }
    r := TakeApart(buf, p, c, t);
  }

  /** The branch of file_path for a specification t at p with a colon at c. */
  method TakeApart(buf: array<char>, p: nat, c: nat, ghost t: string) returns (r: Result<Path>)
    requires p <= c < buf.Length && buf[p..] == t + [NUL] && NUL !in t && c - p < |t|
    modifies buf
    ensures r == Explicit(t[..c - p], t[c - p + 1..])
  {
    hide Strtol, FsPath, Text;
    ghost var device, after := t[..c - p], t[c - p + 1..];
    assert buf[c + 1..] == buf[p..][c + 1 - p..] == after + [NUL] + [];
    assert buf[p..c] == buf[p..][..c - p] == device;
    buf[c] := NUL;
    assert buf[p..] == buf[p..c] + [NUL] + buf[c + 1..];
    TextOf(device, buf[c + 1..]);
    TextOf(after, []);
    if Text(buf[p..]) == "" {
      return Err(BadPath);
    }
    var n, endp := ParseNumber(Text(buf[c + 1..]), 0);
    if endp == 0 {
      return Err(BadPath);
    }
    assert buf[c + 1 + endp..] == buf[c + 1..][endp..] == after[endp..] + [NUL] + [];
    TextOf(after[endp..], []);
    return WithPath(Text(buf[p..]), n % UINT, Text(buf[c + 1 + endp..]));
  }

  /** The end of file_path: an empty path becomes the root, a relative one is refused. */
  function WithPath(device: string, part: nat, path: string): Result<Path> {
    var p :- FsPath(path);
    Ok(Path(device, part, p))
  }
}
