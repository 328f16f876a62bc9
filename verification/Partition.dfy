/** Reading a partition of a disk (loader/part.c over loader/disk.c). */
module Partition {
  import opened Bytes

  const SECTOR_SIZE := 512

  /** A device as Open Firmware shows it: a byte, or nothing where it cannot be read. */
  type Cells = seq<Option<byte>>

  /** part_t: the partition occupies disk[start..start+len]. */
  datatype Part = Part(disk: Cells, start: nat, len: nat)

  /** The partition on its own, numbered from 0. */
  function View(p: Part): (v: Cells)
    ensures |v| == p.len
  {
    seq(p.len, i requires 0 <= i => if p.start + i < |p.disk| then p.disk[p.start + i] else None)
  }

  /** A volume embedded anywhere on a disk is seen unchanged; whatever is
      computed from the view does not depend on the place. */
  lemma EmbeddedView(before: Cells, v: Cells, after: Cells)
    ensures View(Part(before + v + after, |before|, |v|)) == v
  {
    var disk := before + v + after;
    forall i | 0 <= i < |v| ensures View(Part(disk, |before|, |v|))[i] == v[i] {
      assert disk[|before| + i] == v[i];
    }
  }

  predicate Readable(v: Cells, at: nat, n: nat) {
    at + n <= |v| && forall i :: at <= i < at + n ==> v[i].Some?
  }

  function Values(v: Cells, at: nat, n: nat): (s: seq<byte>)
    requires Readable(v, at, n)
    ensures |s| == n && forall i :: 0 <= i < n ==> Some(s[i]) == v[at + i]
  {
    seq(n, i requires 0 <= i < n => v[at + i].value)
  }

  /** The bytes that come across before n are in or the device stops. */
  function Transferred(v: Cells, at: nat, n: nat): (s: seq<byte>)
    ensures |s| <= n && (0 < |s| ==> at + |s| <= |v|)
    ensures forall k :: at <= k < at + |s| ==> v[k] == Some(s[k - at])
    ensures |s| == n || |v| <= at + |s| || v[at + |s|].None?
    decreases n
  {
    if n == 0 || |v| <= at || v[at].None? then [] else [v[at].value] + Transferred(v, at + 1, n - 1)
  }

  /** Reference for part_read: n bytes from byte off of a sector, on the partition alone.
      A read that would end on the partition's last byte is refused. */
  function VolRead(v: Cells, sector: nat, off: nat, n: nat): (r: Result<seq<byte>>)
    ensures r.Ok? ==> |r.value| == n
  {
    var at := sector * SECTOR_SIZE + off;
    if at + n >= |v| then Err(PartBeyond)
    else if Readable(v, at, n) then Ok(Values(v, at, n))
    else Err(ShortRead)
  }

  /** The bytes a read puts in the buffer: all of them, those before the first
      unreadable one, or none if the read is refused. */
  function Delivered(v: Cells, sector: nat, off: nat, n: nat): (s: seq<byte>)
    ensures |s| <= n
    ensures var r := VolRead(v, sector, off, n);
            (r.Ok? <==> |s| == n && r != Err(PartBeyond)) && (r.Ok? ==> s == r.value)
  {
    var at := sector * SECTOR_SIZE + off;
    if at + n >= |v| then [] else CompleteTransfer(v, at, n); Transferred(v, at, n)
  }

  /** disk_read: the firmware fills buf from o on until n bytes are in or a byte cannot be read. */
  method DiskRead(disk: Cells, buf: array<byte>, o: nat, n: nat, at: nat) returns (nr: nat)
    requires o + n <= buf.Length
    modifies buf
    ensures nr == |Transferred(disk, at, n)|
    ensures buf[..] == Put(old(buf[..]), o, Transferred(disk, at, n))
  {
    nr := 0;
    ghost var all := Transferred(disk, at, n);
    while nr < n && at + nr < |disk| && disk[at + nr].Some?
      invariant nr <= |all|
      invariant forall j :: o <= j < o + nr ==> buf[j] == all[j - o]
      invariant forall j :: 0 <= j < buf.Length && !(o <= j < o + nr) ==> buf[j] == old(buf[j])
    {
      buf[o + nr] := disk[at + nr].value;
      nr := nr + 1;
    }
  }

  /** part_read (loader/part.c:195-222), filling buf from o on. */
  method PartRead(p: Part, sector: nat, off: nat, n: nat, buf: array<byte>, o: nat)
    returns (r: Result<()>)
    requires o + n <= buf.Length
    modifies buf
    ensures var v := VolRead(View(p), sector, off, n);
            (r.Ok? <==> v.Ok?) && (r.Err? ==> r.error == v.error)
    ensures buf[..] == Put(old(buf[..]), o, Delivered(View(p), sector, off, n))
  {
    hide Put, Transferred, Readable, Values;
    var pos := sector * SECTOR_SIZE;
    if pos + off + n >= p.len {
      assert buf[..] == Put(buf[..], o, []);
      return Err(PartBeyond);
    }
    var at := pos + off;
    SameTransfer(p, at, n);
    CompleteTransfer(View(p), at, n);
    var nr := DiskRead(p.disk, buf, o, n, p.start + at);
    if nr != n {
      return Err(ShortRead);
    }
    return Ok(());
  }

  /** Inside the partition, the disk and the partition on its own transfer the same bytes. */
  lemma {:induction false} SameTransfer(p: Part, at: nat, n: nat)
    requires at + n < p.len
    ensures Transferred(p.disk, p.start + at, n) == Transferred(View(p), at, n)
    decreases n
  {
    hide Transferred;
    if n > 0 {
      assert View(p)[at] == if p.start + at < |p.disk| then p.disk[p.start + at] else None;
      TransferStep(p.disk, p.start + at, n);
      TransferStep(View(p), at, n);
      SameTransfer(p, at + 1, n - 1);
    }
  }

  lemma TransferStep(v: Cells, at: nat, n: nat)
    requires 0 < n
    ensures Transferred(v, at, n)
            == if |v| <= at || v[at].None? then [] else [v[at].value] + Transferred(v, at + 1, n - 1)
  {
  }

  lemma CompleteTransfer(v: Cells, at: nat, n: nat)
    requires at + n <= |v|
    ensures |Transferred(v, at, n)| == n <==> Readable(v, at, n)
    ensures Readable(v, at, n) ==> Transferred(v, at, n) == Values(v, at, n)
  {
    var s := Transferred(v, at, n);
    if Readable(v, at, n) {
      forall i | 0 <= i < n ensures s[i] == Values(v, at, n)[i] {
        assert v[at + i] == Some(s[i]);
      }
    }
  }
}
