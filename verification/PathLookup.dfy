/** Resolving a path through directories and symbolic links (loader/ext2fs.c:689-825). */
module PathLookup {
  import opened Bytes
  import opened BlockMap
  import opened Directory

  const SLASH: byte := 47
  const MAX_LINKS := 7  // EXT2_MAX_SYMLINKCNT - 1: the eighth link is refused

  type Name = seq<byte>

  /** The length of the first component of a path that does not start with a slash. */
  function Span(s: seq<byte>): (n: nat)
    ensures n <= |s| && SLASH !in s[..n] && (n < |s| ==> s[n] == SLASH)
    ensures forall j :: 0 <= j < n ==> s[j] != SLASH
    ensures s != [] && s[0] != SLASH ==> 0 < n
  {
    if s == [] || s[0] == SLASH then 0 else 1 + Span(s[1..])
  }

  /** The components of a path; runs of slashes count as one. */
  function Comps(s: seq<byte>): (cs: seq<Name>)
    decreases |s|
  {
    if s == [] then []
    else if s[0] == SLASH then Comps(s[1..])
    else [s[..Span(s)]] + Comps(s[Span(s)..])
  }

  /** Where the component after the first one starts: past its slashes. */
  function SkipSlashes(s: seq<byte>, at: nat): (n: nat)
    requires at <= |s|
    ensures at <= n <= |s| && (n < |s| ==> s[n] != SLASH)
    ensures Comps(s[at..]) == Comps(s[n..])
    decreases |s| - at
  {
    if at < |s| && s[at] == SLASH then
      assert s[at..][1..] == s[at + 1..];
      SkipSlashes(s, at + 1)
    else at
  }

  /** A path written from its components. */
  function Joined(ns: seq<Name>): seq<byte> {
    if ns == [] then [] else [SLASH] + ns[0] + Joined(ns[1..])
  }

  ghost predicate IsName(n: Name) { n != [] && SLASH !in n }

  lemma {:induction false} SpanOf(n: Name, rest: seq<byte>)
    requires SLASH !in n && (rest != [] ==> rest[0] == SLASH)
    ensures Span(n + rest) == |n|
    decreases |n|
  {
    if n != [] {
      assert n[0] in n && (n + rest)[1..] == n[1..] + rest;
      SpanOf(n[1..], rest);
    } else {
      assert n + rest == rest;
    }
  }

  lemma CompsCons(n: Name, rest: seq<byte>)
    requires IsName(n) && (rest != [] ==> rest[0] == SLASH)
    ensures Comps(n + rest) == [n] + Comps(rest)
    ensures Comps([SLASH] + n + rest) == Comps(n + rest)
  {
    SpanOf(n, rest);
    assert (n + rest)[0] == n[0] && n[0] in n;
    assert (n + rest)[..|n|] == n && (n + rest)[|n|..] == rest;
    assert ([SLASH] + n + rest)[1..] == n + rest;
  }

  /** Splitting a written path gives its components back ... */
  lemma {:induction false} CompsOfJoined(ns: seq<Name>)
    requires forall n :: n in ns ==> IsName(n)
    ensures Comps(Joined(ns)) == ns
    decreases |ns|
  {
    hide Comps, IsName;
    if ns == [] {
      NoComps();
    } else {
      CompsCons(ns[0], Joined(ns[1..]));
      CompsOfJoined(ns[1..]);
    }
  }

  lemma NoComps()
    ensures Comps([]) == []
  {
  }

  lemma SomeComps(s: seq<byte>)
    requires s != [] && s[0] != SLASH
    ensures Comps(s) != []
  {
  }

  /** ... and every component of any path is a name. */
  lemma {:induction false} CompsAreNames(s: seq<byte>)
    ensures forall n :: n in Comps(s) ==> IsName(n)
    decreases |s|
  {
    if s != [] {
      if s[0] == SLASH { CompsAreNames(s[1..]); } else { CompsAreNames(s[Span(s)..]); }
    }
  }

  function Absolute(s: seq<byte>): bool { s != [] && s[0] == SLASH }

  /** Outcome of a lookup: what was found, the symlink counter afterwards, and
      whether it failed because the device stopped inside a block of pointers. */
  datatype Outcome = Outcome(found: Result<Found>, nest: nat, short: bool)

  /** ext2fs_find_file1 from its loop on: comps is not empty, here is the current
      node and kind its type. Links are counted over the whole lookup. */
  ghost function WalkPath(fs: Fs, root: Node, here: Node, kind: Kind, comps: seq<Name>, nest: nat): (out: Outcome)
    requires comps != [] && nest <= MAX_LINKS
    ensures nest <= out.nest <= MAX_LINKS + 1 && (out.found.Ok? ==> out.nest <= MAX_LINKS && !out.short)
    decreases 8 - nest, |comps|, 0
  {
    if kind != Kind.Directory then Outcome(Err(NotDir), nest, false)
    else
      var out := Enter(fs, root, here, comps[0], nest);
      if out.found.Err? || |comps| == 1 then out
      else WalkPath(fs, root, out.found.value.node, out.found.value.kind, comps[1..], out.nest)
  }

  /** One component: the entry of directory here, or what it is a link to. */
  ghost function Enter(fs: Fs, root: Node, here: Node, name: Name, nest: nat): (out: Outcome)
    requires nest <= MAX_LINKS
    ensures nest <= out.nest <= MAX_LINKS + 1 && (out.found.Ok? ==> out.nest <= MAX_LINKS && !out.short)
    decreases 8 - nest, 0, 1
  {
    var hit := Lookup(fs, here, name);
    if hit.Err? then Outcome(Err(hit.error), nest, LookupShort(fs, here, name))
    else if hit.value.kind == Symlink then FollowLink(fs, root, here, hit.value.node, nest)
    else Outcome(hit, nest, false)
  }

  /** Following a link found in directory here. Any error of the nested lookup
      becomes NotFound; a target without components leaves the type at Symlink. */
  ghost function FollowLink(fs: Fs, root: Node, here: Node, link: Node, nest: nat): (out: Outcome)
    requires nest <= MAX_LINKS
    ensures nest < out.nest <= MAX_LINKS + 1 && (out.found.Ok? ==> out.nest <= MAX_LINKS && !out.short)
    decreases 8 - nest, 0, 0
  {
    if nest == MAX_LINKS then Outcome(Err(Loop), nest + 1, false)
    else
      var text := LinkText(fs, link);
      if text.Err? then Outcome(Err(text.error), nest + 1, LinkShort(fs, link))
      else
        var start := if Absolute(text.value) then root else here;
        var cs := Comps(text.value);
        if cs == [] then Outcome(Ok(Found(start, Symlink)), nest + 1, false)
        else
          var out := WalkPath(fs, root, start, Kind.Directory, cs, nest + 1);
          if out.found.Err? && out.found.error != Undefined then out.(found := Err(NotFound)) else out
  }

  /** ext2fs_find_file1 as a whole, on the path of the caller. */
  ghost function FindFrom(fs: Fs, root: Node, path: seq<byte>, start: Node, kind: Kind, nest: nat): (out: Outcome)
    requires nest <= MAX_LINKS
    ensures out.found.Ok? ==> !out.short
  {
    var cs := Comps(path);
    if cs == [] then Outcome(Ok(Found(start, kind)), nest, false)
    else WalkPath(fs, root, start, Kind.Directory, cs, nest)
  }

  lemma WalkOn(fs: Fs, root: Node, here: Node, kind: Kind, name: Name, more: seq<Name>, nest: nat)
    requires nest <= MAX_LINKS
    ensures WalkPath(fs, root, here, kind, [name] + more, nest) ==
            if kind != Kind.Directory then Outcome(Err(NotDir), nest, false)
            else
              var out := Enter(fs, root, here, name, nest);
              if out.found.Err? || more == [] then out
              else WalkPath(fs, root, out.found.value.node, out.found.value.kind, more, out.nest)
  {
    hide Enter;
    assert ([name] + more)[1..] == more;
  }

  /** ext2fs_find_file: Unknown expects no particular type. */
  ghost function FindFile(fs: Fs, root: Node, path: seq<byte>, start: Node, wanted: Kind): Result<Found> {
    var f :- FindFrom(fs, root, path, start, Kind.Directory, 0).found;
    if wanted == Regular && f.kind != wanted then Err(NotReg)
    else if wanted == Kind.Directory && f.kind != wanted then Err(NotDir)
    else Ok(f)
  }

  /** Reference: the usual meaning of a path. A link is replaced by its target in
      the path, an absolute one restarting at the root; at most fuel links. */
  function Resolve(fs: Fs, root: nat, here: nat, comps: seq<Name>, fuel: nat): Option<(nat, Kind)>
    decreases fuel, |comps|
  {
    if comps == [] then Some((here, Kind.Directory))
    else
      match Lookup(fs, Node(here, None), comps[0])
      case Err(_) => None
      case Ok(Found(node, kind)) =>
        if kind == Symlink then
          match LinkText(fs, node)
          case Err(_) => None
          case Ok(text) =>
            if fuel == 0 then None
            else Resolve(fs, root, if Absolute(text) then root else here, Comps(text) + comps[1..], fuel - 1)
        else if |comps| == 1 then Some((node.ino, kind))
        else if kind == Kind.Directory then Resolve(fs, root, node.ino, comps[1..], fuel)
        else None
  }

  /** A readable link whose target has no component. */
  predicate EmptyLink(fs: Fs, link: Node) {
    var text := LinkText(fs, link);
    text.Ok? && Comps(text.value) == []
  }

  /** The directory that names lead to from directory d, through directories only. */
  function Descend(fs: Fs, d: nat, names: seq<Name>): Option<nat>
    decreases |names|
  {
    if names == [] then Some(d)
    else
      var hit := Lookup(fs, Node(d, None), names[0]);
      if hit.Ok? && hit.value.kind == Kind.Directory then Descend(fs, hit.value.node.ino, names[1..]) else None
  }

  /** Every readable link in a directory below d names at least one component. */
  ghost predicate LinksNameSomething(fs: Fs, d: nat) {
    forall names: seq<Name>, name: Name ::
      (forall n :: n in names + [name] ==> IsName(n)) && Descend(fs, d, names).Some? ==>
        var hit := Lookup(fs, Node(Descend(fs, d, names).value, None), name);
        hit.Ok? && hit.value.kind == Symlink ==> !EmptyLink(fs, hit.value.node)
  }

  /** The directories below d. */
  ghost function Below(fs: Fs, d: nat): iset<nat> {
    iset names: seq<Name> | (forall n :: n in names ==> IsName(n)) && Descend(fs, d, names).Some?
      :: Descend(fs, d, names).value
  }

  /** Lookups of directories do not leave this set. */
  ghost predicate Closed(fs: Fs, dirs: iset<nat>) {
    forall d: nat, name: Name :: d in dirs && IsName(name) ==>
      var hit := Lookup(fs, Node(d, None), name);
      hit.Ok? && hit.value.kind == Kind.Directory ==> hit.value.node.ino in dirs
  }

  /** A closed set of directories that holds no empty link. */
  ghost predicate Clean(fs: Fs, dirs: iset<nat>) {
    Closed(fs, dirs) &&
    forall d: nat, name: Name :: d in dirs && IsName(name) ==>
      var hit := Lookup(fs, Node(d, None), name);
      hit.Ok? && hit.value.kind == Symlink ==> !EmptyLink(fs, hit.value.node)
  }

  lemma {:induction false} DescendOn(fs: Fs, d: nat, names: seq<Name>, name: Name)
    requires Descend(fs, d, names).Some?
    ensures Descend(fs, d, names + [name]) == Descend(fs, Descend(fs, d, names).value, [name])
    decreases |names|
  {
    hide Lookup;
    var all := names + [name];
    if names == [] {
      assert all == [name];
    } else {
      assert all[0] == names[0] && all[1..] == names[1..] + [name];
      DescendOn(fs, Lookup(fs, Node(d, None), names[0]).value.node.ino, names[1..], name);
    }
  }

  lemma BelowClosed(fs: Fs, d: nat)
    ensures Closed(fs, Below(fs, d)) && d in Below(fs, d)
  {
    hide Lookup, IsName;
    assert Descend(fs, d, []) == Some(d);
    forall b: nat, name: Name | b in Below(fs, d) && IsName(name)
      ensures var hit := Lookup(fs, Node(b, None), name);
              hit.Ok? && hit.value.kind == Kind.Directory ==> hit.value.node.ino in Below(fs, d)
    {
      var names: seq<Name> :| (forall n :: n in names ==> IsName(n)) && Descend(fs, d, names) == Some(b);
      assert forall n :: n in names + [name] ==> IsName(n);
      DescendOn(fs, d, names, name);
      var hit := Lookup(fs, Node(b, None), name);
      if hit.Ok? && hit.value.kind == Kind.Directory {
        assert [name][1..] == [];
        assert Descend(fs, d, names + [name]) == Some(hit.value.node.ino);
      }
    }
  }

  lemma NamedLink(fs: Fs, d: nat, names: seq<Name>, name: Name)
    requires LinksNameSomething(fs, d) && Descend(fs, d, names).Some?
    requires (forall n :: n in names ==> IsName(n)) && IsName(name)
    ensures var hit := Lookup(fs, Node(Descend(fs, d, names).value, None), name);
            hit.Ok? && hit.value.kind == Symlink ==> !EmptyLink(fs, hit.value.node)
  {
    hide Lookup, IsName, EmptyLink, Descend;
    assert forall n :: n in names + [name] ==> IsName(n);
  }

  lemma BelowClean(fs: Fs, d: nat)
    requires LinksNameSomething(fs, d)
    ensures Clean(fs, Below(fs, d)) && d in Below(fs, d)
  {
    hide Lookup, IsName, EmptyLink, Closed;
    BelowClosed(fs, d);
    forall b: nat, name: Name | b in Below(fs, d) && IsName(name)
      ensures var hit := Lookup(fs, Node(b, None), name);
              hit.Ok? && hit.value.kind == Symlink ==> !EmptyLink(fs, hit.value.node)
    {
      var names: seq<Name> :| (forall n :: n in names ==> IsName(n)) && Descend(fs, d, names) == Some(b);
      NamedLink(fs, d, names, name);
    }
  }

  // ----- Lookups end -----

  /** Directory d is a chain of records as far as it can be read, and the links in it
      fit into the memory the loader takes for them. */
  ghost predicate DirOk(fs: Fs, d: nat) {
    && (ReadInode(fs, d).Ok? ==> WellFormedDir(fs, ReadInode(fs, d).value))
    && forall name: Name ::
         var hit := Lookup(fs, Node(d, None), name);
         hit.Ok? && hit.value.kind == Symlink ==>
           var inode := NodeInode(fs, hit.value.node);
           inode.Ok? ==> LinkFits(fs, inode.value)
  }

  /** So are all directories below d. */
  ghost predicate WellFormed(fs: Fs, d: nat) {
    Geometry(fs) && forall b :: b in Below(fs, d) ==> DirOk(fs, b)
  }

  /** The lookup starts in a closed set of well-formed directories. */
  ghost predicate InOrder(fs: Fs, dirs: iset<nat>, root: Node, here: Node) {
    && Geometry(fs) && Closed(fs, dirs) && root.ino in dirs && here.ino in dirs
    && Faithful(fs, root) && Faithful(fs, here)
    && forall d :: d in dirs ==> DirOk(fs, d)
  }

  lemma FaithfulInode(fs: Fs, node: Node)
    requires Faithful(fs, node)
    ensures NodeInode(fs, node) == ReadInode(fs, node.ino)
  {
    hide ReadInode;
  }

  /** What looking a name up in such a directory gives: no undefined outcome, a
      directory of the set, or a link that can be read or fails. */
  lemma EntryEnds(fs: Fs, dirs: iset<nat>, root: Node, here: Node, name: Name)
    requires InOrder(fs, dirs, root, here) && IsName(name)
    ensures var hit := Lookup(fs, here, name);
            && hit != Err(Undefined)
            && (hit.Ok? ==> Faithful(fs, hit.value.node))
            && (hit.Ok? && hit.value.kind == Kind.Directory ==> hit.value.node.ino in dirs)
            && (hit.Ok? && hit.value.kind == Symlink ==> LinkText(fs, hit.value.node) != Err(Undefined))
  {
    hide Lookup, IsName, ReadInode, LinkText, LinkFits, WellFormedDir;
    assert DirOk(fs, here.ino);
    FaithfulInode(fs, here);
    LookupEnds(fs, here, name);
    LookupByNumber(fs, here, name);
    var hit := Lookup(fs, here, name);
    assert hit == Lookup(fs, Node(here.ino, None), name);
    if hit.Ok? && hit.value.kind == Symlink {
      InodeDefined(fs, hit.value.node.ino);
      FaithfulInode(fs, hit.value.node);
      LinkDefined(fs, hit.value.node);
    }
  }

  /** A lookup that ends: with an outcome other than undefined, and if it is a
      directory, in one of the set. */
  ghost predicate Ended(fs: Fs, dirs: iset<nat>, out: Outcome) {
    && out.found != Err(Undefined)
    && (out.found.Ok? ==> Faithful(fs, out.found.value.node))
    && (out.found.Ok? && out.found.value.kind == Kind.Directory ==> out.found.value.node.ino in dirs)
  }

  /** Every lookup among well-formed directories ends, on every graph of links. */
  lemma {:induction false} WalkEnds(fs: Fs, dirs: iset<nat>, root: Node, here: Node, comps: seq<Name>, nest: nat)
    requires comps != [] && nest <= MAX_LINKS && forall n :: n in comps ==> IsName(n)
    requires InOrder(fs, dirs, root, here)
    ensures Ended(fs, dirs, WalkPath(fs, root, here, Kind.Directory, comps, nest))
    decreases 8 - nest, |comps|, 0
  {
    hide Lookup, LinkText, IsName, LookupShort, DirOk, Closed, Faithful;
    assert IsName(comps[0]);
    EntryEnds(fs, dirs, root, here, comps[0]);
    var hit := Lookup(fs, here, comps[0]);
    if hit.Ok? && hit.value.kind == Symlink {
      FollowEnds(fs, dirs, root, here, hit.value.node, nest);
    }
    var out := Enter(fs, root, here, comps[0], nest);
    if out.found.Ok? && |comps| > 1 && out.found.value.kind == Kind.Directory {
      WalkEnds(fs, dirs, root, out.found.value.node, comps[1..], out.nest);
    }
  }

  lemma {:induction false} FollowEnds(fs: Fs, dirs: iset<nat>, root: Node, here: Node, link: Node, nest: nat)
    requires nest <= MAX_LINKS && InOrder(fs, dirs, root, here) && LinkText(fs, link) != Err(Undefined)
    ensures Ended(fs, dirs, FollowLink(fs, root, here, link, nest))
    decreases 8 - nest, 0, 0
  {
    hide Lookup, LinkText, IsName, LinkShort, DirOk, Closed, Faithful, Comps;
    var text := LinkText(fs, link);
    if nest < MAX_LINKS && text.Ok? && Comps(text.value) != [] {
      CompsAreNames(text.value);
      WalkEnds(fs, dirs, root, if Absolute(text.value) then root else here, Comps(text.value), nest + 1);
    }
  }

  /** Main result on termination: if the directories below the root and below the
      start are well formed, a lookup of any path ends, whatever links there are and
      whatever cannot be read, and follows at most seven links in all. */
  lemma FindEnds(fs: Fs, root: Node, path: seq<byte>, start: Node, kind: Kind)
    requires Faithful(fs, root) && Faithful(fs, start)
    requires WellFormed(fs, root.ino) && WellFormed(fs, start.ino)
    ensures var out := FindFrom(fs, root, path, start, kind, 0);
            && out.found != Err(Undefined)
            && out.nest <= 8 && (out.found.Ok? ==> out.nest <= 7)
  {
    hide WalkPath, DirOk, Below, Closed, Comps, Faithful;
    BelowClosed(fs, root.ino);
    BelowClosed(fs, start.ino);
    ClosedUnion(fs, Below(fs, root.ino), Below(fs, start.ino));
    if Comps(path) != [] {
      CompsAreNames(path);
      WalkEnds(fs, Below(fs, root.ino) + Below(fs, start.ino), root, start, Comps(path), 0);
    }
  }

  lemma ClosedUnion(fs: Fs, a: iset<nat>, b: iset<nat>)
    requires Closed(fs, a) && Closed(fs, b)
    ensures Closed(fs, a + b)
  {
    hide Lookup, IsName;
  }

  ghost function Place(r: Result<Found>): Option<(nat, Kind)> {
    if r.Ok? then Some((r.value.node.ino, r.value.kind)) else None
  }

  /** What Resolve makes of the components that follow a finished lookup. */
  ghost function Rest(fs: Fs, root: nat, out: Outcome, rest: seq<Name>): Option<(nat, Kind)>
    requires out.found.Ok? ==> out.nest <= MAX_LINKS
  {
    if out.found.Err? then None
    else if rest == [] then Place(out.found)
    else if out.found.value.kind == Kind.Directory then
      Resolve(fs, root, out.found.value.node.ino, rest, MAX_LINKS - out.nest)
    else None
  }

  lemma LookupByNumber(fs: Fs, here: Node, name: Name)
    requires Faithful(fs, here)
    ensures Lookup(fs, here, name) == Lookup(fs, Node(here.ino, None), name)
    ensures var r := Lookup(fs, here, name); r.Ok? ==> Faithful(fs, r.value.node) && 0 !in name
  {
    hide Scan;
    var inode := NodeInode(fs, here);
    if inode.Ok? {
      ScanFaithful(fs, inode.value, name, 0);
    }
  }

  /** The lookup starts among directories without empty links. */
  ghost predicate Among(fs: Fs, dirs: iset<nat>, root: Node, here: Node) {
    Clean(fs, dirs) && root.ino in dirs && here.ino in dirs
  }

  /** What a lookup has to be: if it starts among directories without empty links
      it stays there, and then, or if what it found is not an empty link, what the
      loader does with comps is what Resolve does with them in front of rest. */
  ghost predicate Resolves(fs: Fs, dirs: iset<nat>, root: Node, here: Node,
                           comps: seq<Name>, rest: seq<Name>, nest: nat, out: Outcome)
    requires nest <= MAX_LINKS && (out.found.Ok? ==> out.nest <= MAX_LINKS)
  {
    && (out.found.Ok? ==> Faithful(fs, out.found.value.node))
    && (Among(fs, dirs, root, here) && out.found.Ok? && out.found.value.kind == Kind.Directory ==>
          out.found.value.node.ino in dirs)
    && (Among(fs, dirs, root, here) || (out.found.Ok? && out.found.value.kind != Symlink) ==>
          Resolve(fs, root.ino, here.ino, comps + rest, MAX_LINKS - nest) == Rest(fs, root.ino, out, rest))
  }

  lemma {:induction false} WalkIsResolve(fs: Fs, dirs: iset<nat>, root: Node, here: Node,
                                         comps: seq<Name>, rest: seq<Name>, nest: nat)
    requires comps != [] && nest <= MAX_LINKS && forall n :: n in comps ==> IsName(n)
    requires Faithful(fs, root) && Faithful(fs, here)
    ensures Resolves(fs, dirs, root, here, comps, rest, nest,
                     WalkPath(fs, root, here, Kind.Directory, comps, nest))
    decreases 8 - nest, |comps|, 0
  {
    hide Lookup, LinkText, Faithful, Comps, IsName, LookupShort, LinkShort, EmptyLink;
    var all := comps + rest;
    assert all[0] == comps[0] && all[1..] == comps[1..] + rest;
    assert IsName(comps[0]);
    LookupByNumber(fs, here, comps[0]);
    var hit := Lookup(fs, here, comps[0]);
    if hit.Ok? {
      var f := hit.value;
      if f.kind == Symlink {
        FollowIsResolve(fs, dirs, root, here, comps[0], comps[1..] + rest, nest);
        var out := FollowLink(fs, root, here, f.node, nest);
        assert [comps[0]] + (comps[1..] + rest) == all;
        if out.found.Ok? && |comps| > 1 && out.found.value.kind == Kind.Directory {
          WalkIsResolve(fs, dirs, root, out.found.value.node, comps[1..], rest, out.nest);
        }
      } else if |comps| > 1 && f.kind == Kind.Directory {
        WalkIsResolve(fs, dirs, root, f.node, comps[1..], rest, nest);
      }
    }
  }

  lemma {:induction false} FollowIsResolve(fs: Fs, dirs: iset<nat>, root: Node, here: Node,
                                           name: Name, rest: seq<Name>, nest: nat)
    requires nest <= MAX_LINKS && IsName(name)
    requires Faithful(fs, root) && Faithful(fs, here)
    requires var hit := Lookup(fs, here, name); hit.Ok? && hit.value.kind == Symlink
    ensures Resolves(fs, dirs, root, here, [name], rest, nest,
                     FollowLink(fs, root, here, Lookup(fs, here, name).value.node, nest))
    decreases 8 - nest, 0, 0
  {
    hide Lookup, LinkText, Faithful, Comps, IsName, LookupShort, LinkShort;
    LookupByNumber(fs, here, name);
    var link := Lookup(fs, here, name).value.node;
    var all := [name] + rest;
    assert all[0] == name && all[1..] == rest;
    var text := LinkText(fs, link);
    if nest < MAX_LINKS && text.Ok? && Comps(text.value) != [] {
      CompsAreNames(text.value);
      WalkIsResolve(fs, dirs, root, if Absolute(text.value) then root else here, Comps(text.value), rest, nest + 1);
    }
  }

  lemma FindResolves(fs: Fs, dirs: iset<nat>, root: Node, path: seq<byte>, start: Node)
    requires Faithful(fs, root) && Faithful(fs, start)
    ensures var out := FindFrom(fs, root, path, start, Kind.Directory, 0);
            && (out.found.Ok? ==> Faithful(fs, out.found.value.node))
            && (Among(fs, dirs, root, start) || (out.found.Ok? && out.found.value.kind != Symlink) ==>
                  Place(out.found) == Resolve(fs, root.ino, start.ino, Comps(path), MAX_LINKS))
  {
    hide Among, Comps, Faithful;
    var cs := Comps(path);
    if cs != [] {
      CompsAreNames(path);
      assert cs + [] == cs;
      WalkIsResolve(fs, dirs, root, start, cs, [], 0);
    }
  }

  /** Main result on any volume: what a lookup finds, unless it is reported as a
      link, is what the path means. */
  lemma FoundIsMeant(fs: Fs, root: Node, path: seq<byte>, start: Node)
    requires Faithful(fs, root) && Faithful(fs, start)
    ensures var r := FindFrom(fs, root, path, start, Kind.Directory, 0).found;
            r.Ok? ==>
              && Faithful(fs, r.value.node)
              && (r.value.kind != Symlink ==>
                    Resolve(fs, root.ino, start.ino, Comps(path), MAX_LINKS) == Some((r.value.node.ino, r.value.kind)))
  {
    hide Resolve, Comps, FindFrom, Faithful;
    FindResolves(fs, iset{}, root, path, start);
  }

  /** A lookup and the meaning of its path agree: same success, inode and type. */
  ghost predicate Agree(fs: Fs, root: Node, path: seq<byte>) {
    Place(FindFrom(fs, root, path, root, Kind.Directory, 0).found)
    == Resolve(fs, root.ino, root.ino, Comps(path), MAX_LINKS)
  }

  /** Main result: all lookups succeed exactly when their paths resolve within seven
      links, with the same inode and type, if and only if every readable link in the
      directories of the volume names a component. */
  lemma FindIsResolve(fs: Fs, root: Node)
    requires Faithful(fs, root)
    ensures (forall path: seq<byte> :: 0 !in path ==> Agree(fs, root, path)) <==> LinksNameSomething(fs, root.ino)
    ensures LinksNameSomething(fs, root.ino) ==> forall path :: Agree(fs, root, path)
  {
    hide FindFrom, Resolve, Comps, Lookup, EmptyLink, Clean, Faithful;
    if LinksNameSomething(fs, root.ino) {
      BelowClean(fs, root.ino);
      forall path: seq<byte> ensures Agree(fs, root, path) {
        FindResolves(fs, Below(fs, root.ino), root, path, root);
      }
    } else {
      var names: seq<Name>, name: Name :| (forall n :: n in names + [name] ==> IsName(n))
        && Descend(fs, root.ino, names).Some?
        && var hit := Lookup(fs, Node(Descend(fs, root.ino, names).value, None), name);
           hit.Ok? && hit.value.kind == Symlink && EmptyLink(fs, hit.value.node);
      EmptyLinkFound(fs, root, names, name);
    }
  }

  /** Names that lead to an empty link make a path on which the two disagree. */
  lemma EmptyLinkFound(fs: Fs, root: Node, names: seq<Name>, name: Name)
    requires Faithful(fs, root) && forall n :: n in names + [name] ==> IsName(n)
    requires Descend(fs, root.ino, names).Some?
    requires var hit := Lookup(fs, Node(Descend(fs, root.ino, names).value, None), name);
             hit.Ok? && hit.value.kind == Symlink && EmptyLink(fs, hit.value.node)
    ensures 0 !in Joined(names + [name]) && !Agree(fs, root, Joined(names + [name]))
  {
    hide Comps, Resolve, WalkPath, Lookup, EmptyLink, Faithful, Descend, Joined, IsName;
    CompsOfJoined(names + [name]);
    WalkToLink(fs, root, root, names, name);
  }

  lemma {:induction false} WalkToLink(fs: Fs, root: Node, here: Node, names: seq<Name>, name: Name)
    requires Faithful(fs, here) && Descend(fs, here.ino, names).Some?
    requires var hit := Lookup(fs, Node(Descend(fs, here.ino, names).value, None), name);
             hit.Ok? && hit.value.kind == Symlink && EmptyLink(fs, hit.value.node)
    ensures var all := names + [name];
            && 0 !in Joined(all)
            && Place(WalkPath(fs, root, here, Kind.Directory, all, 0).found)
               != Resolve(fs, root.ino, here.ino, all, MAX_LINKS)
    decreases |names|
  {
    hide Lookup, LinkText, Faithful, Comps, LookupShort, LinkShort;
    var all := names + [name];
    if names == [] {
      assert all == [name];
      LookupByNumber(fs, here, name);
      NoNulJoined(name, []);
      EmptyTarget(fs, root, here, name, LinkText(fs, Lookup(fs, here, name).value.node).value);
    } else {
      assert all[0] == names[0] && all[1..] == names[1..] + [name];
      LookupByNumber(fs, here, names[0]);
      WalkToLink(fs, root, Lookup(fs, here, names[0]).value.node, names[1..], name);
      NoNulJoined(names[0], all[1..]);
      assert [names[0]] + all[1..] == all;
    }
  }

  lemma NoNulJoined(n: Name, ns: seq<Name>)
    requires 0 !in n && 0 !in Joined(ns)
    ensures 0 !in Joined([n] + ns)
  {
    assert ([n] + ns)[1..] == ns;
  }

  /** A link whose target has no component is found as a link, where the usual
      meaning is a directory, and any further component fails. */
  lemma EmptyTarget(fs: Fs, root: Node, here: Node, name: Name, text: seq<byte>)
    requires Faithful(fs, here)
    requires var hit := Lookup(fs, here, name);
             hit.Ok? && hit.value.kind == Symlink && LinkText(fs, hit.value.node) == Ok(text)
    requires Comps(text) == []
    ensures WalkPath(fs, root, here, Kind.Directory, [name], 0).found.Ok?
    ensures Place(WalkPath(fs, root, here, Kind.Directory, [name], 0).found)
            != Resolve(fs, root.ino, here.ino, [name], MAX_LINKS)
    ensures forall more :: more != [] ==>
              WalkPath(fs, root, here, Kind.Directory, [name] + more, 0).found == Err(NotDir)
  {
    hide Lookup, LinkText, Faithful, Comps, LookupShort, LinkShort;
    LookupByNumber(fs, here, name);
    assert [name][1..] == [];
    forall more: seq<Name> | more != []
      ensures WalkPath(fs, root, here, Kind.Directory, [name] + more, 0).found == Err(NotDir)
    {
      assert ([name] + more)[0] == name && ([name] + more)[1..] == more;
    }
  }

  /** A lookup follows at most seven links in all. */
  lemma FindCount(fs: Fs, root: Node, path: seq<byte>, start: Node)
    ensures var out := FindFrom(fs, root, path, start, Kind.Directory, 0);
            out.nest <= 8 && (out.found.Ok? ==> out.nest <= 7)
  {
  }

  /** ext2fs_find_file, which is only called for the root: asked for a regular file
      or a directory it never finds anything else than what the path means, and it
      finds that if all readable links name something. */
  lemma FindFileIsResolve(fs: Fs, root: Node, path: seq<byte>, wanted: Kind)
    requires Faithful(fs, root)
    ensures var f := FindFile(fs, root, path, root, wanted);
            var meant := Resolve(fs, root.ino, root.ino, Comps(path), MAX_LINKS);
            var typed := wanted == Regular || wanted == Kind.Directory;
            && (typed && f.Ok? ==> Place(f) == meant && meant.value.1 == wanted)
            && (LinksNameSomething(fs, root.ino) ==>
                  Place(f) == if meant.Some? && typed && meant.value.1 != wanted then None else meant)
  {
    hide FindFrom, Resolve, Comps, LinksNameSomething, Faithful;
    FoundIsMeant(fs, root, path, root);
    FindIsResolve(fs, root);
    if LinksNameSomething(fs, root.ino) {
      assert Agree(fs, root, path);
    }
  }

  /** On a volume with well-formed directories ext2fs_find_file ends for every path,
      and then all its outcomes are what the paths mean if and only if all readable
      links name something. */
  lemma LookupsMean(fs: Fs, root: Node)
    requires Faithful(fs, root) && WellFormed(fs, root.ino)
    ensures forall path: seq<byte>, wanted: Kind :: FindFile(fs, root, path, root, wanted) != Err(Undefined)
    ensures (forall path: seq<byte> :: 0 !in path ==>
               FindFrom(fs, root, path, root, Kind.Directory, 0).found != Err(Undefined) && Agree(fs, root, path))
            <==> LinksNameSomething(fs, root.ino)
  {
    hide FindFrom, WellFormed, LinksNameSomething, Agree, Faithful;
    FindIsResolve(fs, root);
    forall path: seq<byte> ensures FindFrom(fs, root, path, root, Kind.Directory, 0).found != Err(Undefined) {
      FindEnds(fs, root, path, root, Kind.Directory);
    }
  }

  lemma {:induction false} JoinedParts(ns: seq<Name>)
    requires ns != [] && forall n :: n in ns ==> IsName(n)
    ensures Joined(ns) != [] && Joined(ns)[0] == '/' as int
    ensures var text := ns[0] + Joined(ns[1..]);
            text != [] && text[0] != '/' as int && Comps(text) == ns
  {
    hide Comps;
    CompsOfJoined(ns);
    CompsCons(ns[0], Joined(ns[1..]));
    assert [SLASH] + ns[0] + Joined(ns[1..]) == Joined(ns);
    assert ns[0][0] in ns[0];
  }

  /** Where a link leads: an absolute target starts at the root, a relative one at the
      directory that holds the link. That is so for the meaning of paths ... */
  lemma LinkMeans(fs: Fs, root: nat, here: nat, name: Name, ns: seq<Name>, rest: seq<Name>, fuel: nat)
    requires ns != [] && forall n :: n in ns ==> IsName(n)
    requires var hit := Lookup(fs, Node(here, None), name); hit.Ok? && hit.value.kind == Symlink
    ensures LinkText(fs, Lookup(fs, Node(here, None), name).value.node) == Ok(Joined(ns)) ==>
              Resolve(fs, root, here, [name] + rest, fuel + 1) == Resolve(fs, root, root, ns + rest, fuel)
    ensures LinkText(fs, Lookup(fs, Node(here, None), name).value.node) == Ok(ns[0] + Joined(ns[1..])) ==>
              Resolve(fs, root, here, [name] + rest, fuel + 1) == Resolve(fs, root, here, ns + rest, fuel)
  {
    hide Lookup, LinkText, Comps, IsName, Joined;
    JoinedParts(ns);
    CompsOfJoined(ns);
    assert ([name] + rest)[0] == name && ([name] + rest)[1..] == rest;
  }

  /** ... and for what the loader does, which counts the link and reports every error
      behind it as not-found. */
  lemma LinkFollowed(fs: Fs, root: Node, here: Node, name: Name, ns: seq<Name>, start: Node, nest: nat)
    requires nest < 7 && ns != [] && forall n :: n in ns ==> IsName(n)
    requires var hit := Lookup(fs, here, name); hit.Ok? && hit.value.kind == Symlink
    requires var text := LinkText(fs, Lookup(fs, here, name).value.node);
             || (text == Ok(Joined(ns)) && start == root)
             || (text == Ok(ns[0] + Joined(ns[1..])) && start == here)
    ensures var out := WalkPath(fs, root, here, Kind.Directory, [name], nest);
            var inner := WalkPath(fs, root, start, Kind.Directory, ns, nest + 1);
            && out.nest == inner.nest
            && (inner.found.Ok? ==> out.found == inner.found)
            && (inner.found.Err? && inner.found.error != Undefined ==> out.found == Err(NotFound))
  {
    hide Lookup, LinkText, Comps, IsName, Joined, LookupShort, LinkShort;
    JoinedParts(ns);
    CompsOfJoined(ns);
    var link := Lookup(fs, here, name).value.node;
    assert WalkPath(fs, root, here, Kind.Directory, [name], nest) == FollowLink(fs, root, here, link, nest);
  }

  /** In directory here name is a link to the name target. */
  ghost predicate LinksTo(fs: Fs, here: Node, name: Name, target: Name) {
    var hit := Lookup(fs, here, name);
    hit.Ok? && hit.value.kind == Symlink && LinkText(fs, hit.value.node) == Ok(target)
  }

  /** In directory here every name but the last is a link to the next one, and the
      last is something else. */
  ghost predicate Chain(fs: Fs, here: Node, names: seq<Name>)
    decreases |names|
  {
    && names != [] && IsName(names[0])
    && if |names| == 1 then var end := Lookup(fs, here, names[0]); end.Ok? && end.value.kind != Symlink
       else LinksTo(fs, here, names[0], names[1]) && Chain(fs, here, names[1..])
  }

  lemma {:induction false} ChainEnds(fs: Fs, here: Node, names: seq<Name>)
    requires Chain(fs, here, names)
    ensures Lookup(fs, here, names[|names| - 1]).Ok?
    decreases |names|
  {
    hide Lookup, LinksTo, IsName;
    if |names| > 1 {
      ChainEnds(fs, here, names[1..]);
    }
  }

  /** The limit on links: a chain of links is followed to its end exactly if, with those
      counted before, there are no more than seven of them; otherwise the count ends
      at eight. */
  lemma {:induction false} ChainLimit(fs: Fs, root: Node, here: Node, names: seq<Name>, nest: nat)
    requires Chain(fs, here, names) && nest <= 7
    ensures var out := WalkPath(fs, root, here, Kind.Directory, [names[0]], nest);
            var links := |names| - 1;
            if nest + links <= 7 then out.found == Lookup(fs, here, names[links]) && out.nest == nest + links
            else out.found == Err(if nest == 7 then Loop else NotFound) && out.nest == 8
    decreases |names|
  {
    hide Lookup, LinkText, Comps, IsName, WalkPath;
    ChainEnds(fs, here, names);
    if |names| == 1 {
      EnterOne(fs, root, here, names[0], nest);
    } else if nest == 7 {
      EnterOne(fs, root, here, names[0], nest);
    } else {
      var next, rest := names[1], names[1..];
      assert rest[0] == next && rest[|names| - 2] == names[|names| - 1];
      assert next + Joined([next][1..]) == next;
      LinkFollowed(fs, root, here, names[0], [next], here, nest);
      ChainLimit(fs, root, here, rest, nest + 1);
    }
  }

  /** A single name that is no link, or is one link too many. */
  lemma EnterOne(fs: Fs, root: Node, here: Node, name: Name, nest: nat)
    requires nest <= 7 && Lookup(fs, here, name).Ok?
    ensures var hit, out := Lookup(fs, here, name), WalkPath(fs, root, here, Kind.Directory, [name], nest);
            && (hit.value.kind != Symlink ==> out.found == hit && out.nest == nest)
            && (hit.value.kind == Symlink && nest == 7 ==> out.found == Err(Loop) && out.nest == 8)
  {
    hide Lookup, LinkText, Comps;
  }

  lemma NameStart(n: Name)
    requires IsName(n)
    ensures !Absolute(n)
  {
    assert n[0] in n;
  }

  /** A link that points to itself is never reported as a loop: the eighth link is,
      deep inside, but every level above turns the error into NotFound. */
  lemma {:induction false} SelfLink(fs: Fs, root: Node, here: Node, name: Name, nest: nat)
    requires nest <= MAX_LINKS && IsName(name)
    requires var hit := Lookup(fs, here, name);
             hit.Ok? && hit.value.kind == Symlink && LinkText(fs, hit.value.node) == Ok(name)
    ensures WalkPath(fs, root, here, Kind.Directory, [name], nest)
            == Outcome(Err(if nest == MAX_LINKS then Loop else NotFound), MAX_LINKS + 1, false)
    decreases MAX_LINKS - nest
  {
    hide Lookup, LinkText, Comps, LookupShort, LinkShort;
    var link := Lookup(fs, here, name).value.node;
    assert WalkPath(fs, root, here, Kind.Directory, [name], nest) == FollowLink(fs, root, here, link, nest);
    if nest < MAX_LINKS {
      SingleName(name);
      NameStart(name);
      SelfLink(fs, root, here, name, nest + 1);
    }
  }

  lemma SingleName(n: Name)
    requires IsName(n)
    ensures Comps(n) == [n]
  {
    CompsCons(n, []);
    NoComps();
    assert n + [] == n && [n] + [] == [n];
  }
}
