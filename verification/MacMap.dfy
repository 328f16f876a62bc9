/** Finding a partition in a Macintosh partition map (loader/part.c:34-88). */
module MacMap {
  import opened Bytes
  import opened Partition

  const DRIVER_MAGIC := 0x4552
  const PARTITION_MAGIC := 0x504d

  /** Sector i of the map, if it can be read. */
  function MapSector(disk: Cells, secsize: nat, i: nat): (s: Option<seq<byte>>)
    ensures s.Some? ==> |s.value| == SECTOR_SIZE
  {
    var t := Transferred(disk, i * secsize, SECTOR_SIZE);
    if |t| == SECTOR_SIZE then Some(t) else None
  }

  predicate IsEntry(blk: seq<byte>)
    requires |blk| == SECTOR_SIZE
  {
    Be16(blk, 0) == PARTITION_MAGIC
  }

  function LowerByte(c: byte): byte { if 'A' as int <= c <= 'Z' as int then c + 32 else c }

  /** strcasecmp(mp->processor, "powerpc") == 0 */
  predicate ForPowerpc(blk: seq<byte>)
    requires |blk| == SECTOR_SIZE
  {
    (forall j :: 0 <= j < 7 ==> LowerByte(blk[120 + j]) == "powerpc"[j] as int) && blk[127] == 0
  }

  /** Entry number i is the one asked for; partition 0 is the first bootable one. */
  predicate Wanted(blk: seq<byte>, part: nat, i: nat)
    requires |blk| == SECTOR_SIZE
  {
    part == i || (part == 0 && Be32(blk, 88) / 8 % 2 == 1 && ForPowerpc(blk))
  }

  function Range(disk: Cells, blk: seq<byte>, secsize: nat): Part
    requires |blk| == SECTOR_SIZE
  {
    Part(disk, Be32(blk, 8) * secsize, Be32(blk, 12) * secsize)
  }

  /** The sectors the map may have: as the first entry says, or only that one. */
  function MapCount(disk: Cells, secsize: nat): nat {
    var first := MapSector(disk, secsize, 1);
    if first.Some? && IsEntry(first.value) then Be32(first.value, 4) else 1
  }

  /** Sector i belongs to the map and is a readable entry. */
  predicate Present(disk: Cells, secsize: nat, i: nat) {
    var s := MapSector(disk, secsize, i);
    s.Some? && IsEntry(s.value)
  }

  /** Sector i is an entry that is wanted. */
  predicate Hit(disk: Cells, secsize: nat, part: nat, i: nat) {
    Present(disk, secsize, i) && Wanted(MapSector(disk, secsize, i).value, part, i)
  }

  /** Sector i is where the search ends with a partition. */
  ghost predicate FoundAt(disk: Cells, secsize: nat, part: nat, i: nat) {
    && 1 <= i && (i == 1 || i <= MapCount(disk, secsize))
    && Hit(disk, secsize, part, i)
    && forall j :: 1 <= j < i ==> Present(disk, secsize, j) && !Hit(disk, secsize, part, j)
  }

  /** Sector i is where the search ends because it cannot be read. */
  ghost predicate ShortAt(disk: Cells, secsize: nat, part: nat, i: nat) {
    && 1 <= i && (i == 1 || i <= MapCount(disk, secsize))
    && MapSector(disk, secsize, i).None?
    && forall j :: 1 <= j < i ==> Present(disk, secsize, j) && !Hit(disk, secsize, part, j)
  }

  /** Right results of a search: the entry it ends with, a sector of the map that
      cannot be read, or else no partition. */
  ghost predicate Searched(disk: Cells, secsize: nat, part: nat, r: Result<Part>) {
    && (r.Ok? <==> exists i: nat :: FoundAt(disk, secsize, part, i))
    && (forall i: nat :: FoundAt(disk, secsize, part, i) ==> r == Ok(Found(disk, secsize, i)))
    && (r == Err(ShortRead) <==> exists i: nat :: ShortAt(disk, secsize, part, i))
    && (r.Err? ==> r.error == ShortRead || r.error == PartNotFound)
  }

  /** The partition that entry i describes. */
  function Found(disk: Cells, secsize: nat, i: nat): Part
    requires Present(disk, secsize, i)
  {
    Range(disk, MapSector(disk, secsize, i).value, secsize)
  }

  /** A sector of the map is an entry if its signature says so. */
  lemma Signature(blk: seq<byte>)
    requires |blk| == 512
    ensures IsEntry(blk) <==> blk[0..2] == [0x50, 0x4d]
  {
    assert blk[0..2] == [blk[0], blk[1]];
  }

  /** First block and number of blocks of a partition, at bytes 8 and 12 of its entry. */
  lemma EntryRange(disk: Cells, secsize: nat, i: nat, blk: seq<byte>, start: nat, blocks: nat)
    requires |blk| == 512 && MapSector(disk, secsize, i) == Some(blk) && IsEntry(blk)
    requires start < WORD && blocks < WORD && blk[8..12] == BeBytes(start) && blk[12..16] == BeBytes(blocks)
    ensures Present(disk, secsize, i)
    ensures var p := Found(disk, secsize, i);
            p.disk == disk && p.start == start * secsize && p.len == blocks * secsize
  {
    hide BeBytes, Be32, IsEntry, MapSector;
    Be32At(blk, 8, start);
    Be32At(blk, 12, blocks);
  }

  /** The number of entries, at byte 4 of the first one. */
  lemma EntryCount(disk: Cells, secsize: nat, count: nat)
    requires Present(disk, secsize, 1) && count < WORD
    requires MapSector(disk, secsize, 1).value[4..8] == BeBytes(count)
    ensures MapCount(disk, secsize) == count
  {
    hide BeBytes, Be32, IsEntry, MapSector;
    Be32At(MapSector(disk, secsize, 1).value, 4, count);
  }

  /** An entry is wanted by its number, or by number 0 if it is bootable, by its status
      at byte 88, and for this processor. */
  lemma EntryWanted(disk: Cells, secsize: nat, part: nat, i: nat, status: nat)
    requires Present(disk, secsize, i) && 0 < i && status < WORD
    requires MapSector(disk, secsize, i).value[88..92] == BeBytes(status)
    ensures Hit(disk, secsize, part, i) <==>
              part == i || (part == 0 && status / 8 % 2 == 1 && ForPowerpc(MapSector(disk, secsize, i).value))
  {
    hide BeBytes, Be32, IsEntry, MapSector, ForPowerpc;
    Be32At(MapSector(disk, secsize, i).value, 88, status);
  }

  /** The processor is "powerpc" in any case, NUL-terminated, at byte 120. */
  lemma Powerpc(blk: seq<byte>)
    requires |blk| == 512
    ensures ForPowerpc(blk) <==>
              && (forall j :: 0 <= j < 7 ==>
                    blk[120 + j] == "powerpc"[j] as int || blk[120 + j] == "POWERPC"[j] as int)
              && blk[127] == 0
  {
    assert forall j :: 0 <= j < 7 ==>
        (LowerByte(blk[120 + j]) == "powerpc"[j] as int
         <==> blk[120 + j] == "powerpc"[j] as int || blk[120 + j] == "POWERPC"[j] as int);
  }

  /** Sector i of the map is the 512 bytes at i times the sector size of the disk. */
  lemma SectorBytes(disk: Cells, secsize: nat, i: nat, blk: seq<byte>)
    requires |blk| == 512
    ensures MapSector(disk, secsize, i) == Some(blk) <==>
              i * secsize + 512 <= |disk| && forall j :: 0 <= j < 512 ==> disk[i * secsize + j] == Some(blk[j])
  {
    hide Transferred;
    var at := i * secsize;
    if at + 512 <= |disk| {
      CompleteTransfer(disk, at, 512);
      if forall j :: 0 <= j < 512 ==> disk[at + j] == Some(blk[j]) {
        forall k | at <= k < at + 512 ensures disk[k].Some? {
          assert disk[at + (k - at)] == Some(blk[k - at]);
        }
        assert Values(disk, at, 512) == blk;
      }
    }
  }

  /** The search through a map of the given sector size. */
  method SearchMap(disk: Cells, secsize: nat, part: nat) returns (r: Result<Part>)
    ensures Searched(disk, secsize, part, r)
  {
    hide Be16, Be32, ForPowerpc, Transferred, Wanted, MapSector, FoundAt, ShortAt, Range;
    var blocksInMap: nat, i := 1, 1;
    while i <= blocksInMap
      invariant 1 <= i && (i == 1 ==> blocksInMap == 1)
      invariant 1 < i ==> blocksInMap == MapCount(disk, secsize)
      invariant forall j :: 1 <= j < i ==> Present(disk, secsize, j) && !Hit(disk, secsize, part, j)
      decreases i == 1, blocksInMap - i
    {
      var blk := ReadSector(disk, secsize, i);
      if blk.None? {
        StopsAt(disk, secsize, part, i);
        assert ShortAt(disk, secsize, part, i) by { CutShort(disk, secsize, part, i); }
        return Err(ShortRead);
      }
      if Be16(blk.value, 0) != PARTITION_MAGIC {
        StopsAt(disk, secsize, part, i);
        NotShort(disk, secsize, part, i);
        return Err(PartNotFound);
      }
      if i == 1 {
        blocksInMap := Be32(blk.value, 4);
      }
      if Wanted(blk.value, part, i) {
        FirstHit(disk, secsize, part, i);
        NotShort(disk, secsize, part, i);
        return Ok(Range(disk, blk.value, secsize));
      }
      i := i + 1;
    }
    StopsAt(disk, secsize, part, i);
    NotShort(disk, secsize, part, i);
    return Err(PartNotFound);
  }

  lemma CutShort(disk: Cells, secsize: nat, part: nat, i: nat)
    requires 1 <= i && (i == 1 || i <= MapCount(disk, secsize)) && MapSector(disk, secsize, i).None?
    requires forall j :: 1 <= j < i ==> Present(disk, secsize, j) && !Hit(disk, secsize, part, j)
    ensures ShortAt(disk, secsize, part, i)
  {
    hide Present, MapCount, Hit, MapSector;
  }

  /** The search does not end for want of a sector if it ends at one that can be
      read, or past the map. */
  lemma NotShort(disk: Cells, secsize: nat, part: nat, i: nat)
    requires 1 <= i && forall j :: 1 <= j < i ==> Present(disk, secsize, j) && !Hit(disk, secsize, part, j)
    requires (1 < i && MapCount(disk, secsize) < i)
             || (MapSector(disk, secsize, i).Some? && (!Present(disk, secsize, i) || Hit(disk, secsize, part, i)))
    ensures forall k: nat :: !ShortAt(disk, secsize, part, k)
  {
    hide MapCount, Hit, MapSector, IsEntry;
    forall k: nat ensures !ShortAt(disk, secsize, part, k) {
      assert Present(disk, secsize, k) ==> MapSector(disk, secsize, k).Some?;
    }
  }

  /** Nothing is found past a sector that is missing or outside the map. */
  lemma StopsAt(disk: Cells, secsize: nat, part: nat, i: nat)
    requires 1 <= i && forall j :: 1 <= j < i ==> !Hit(disk, secsize, part, j)
    requires !Present(disk, secsize, i) || (1 < i && MapCount(disk, secsize) < i)
    ensures forall k: nat :: !FoundAt(disk, secsize, part, k)
  {
    hide Present, MapCount;
    forall k: nat ensures !FoundAt(disk, secsize, part, k) {
      assert Hit(disk, secsize, part, k) ==> Present(disk, secsize, k);
    }
  }

  lemma FirstHit(disk: Cells, secsize: nat, part: nat, i: nat)
    requires 1 <= i && (i == 1 || i <= MapCount(disk, secsize)) && Hit(disk, secsize, part, i)
    requires forall j :: 1 <= j < i ==> Present(disk, secsize, j) && !Hit(disk, secsize, part, j)
    ensures FoundAt(disk, secsize, part, i)
    ensures forall k: nat :: FoundAt(disk, secsize, part, k) ==> k == i
  {
    hide Present, MapCount, Hit;
  }

  /** read_mac_partition: the partition of the first wanted entry, all sectors of
      the map before it being entries; otherwise there is none. */
  method ReadMacPartition(disk: Cells, part: nat) returns (r: Result<Part>)
    ensures var driver := MapSector(disk, 0, 0);
            if driver.None? then r == Err(ShortRead)
            else if Be16(driver.value, 0) != DRIVER_MAGIC then r == Err(NotMac)
            else
              Searched(disk, Be16(driver.value, 2), part, r)
  {
    hide Be16, MapSector, Searched;
    var driver := ReadSector(disk, 0, 0);
    if driver.None? {
      return Err(ShortRead);
    }
    if Be16(driver.value, 0) != DRIVER_MAGIC {
      return Err(NotMac);
    }
    r := SearchMap(disk, Be16(driver.value, 2), part);
  }

  /** disk_read of one sector into the local block buffer. */
  method ReadSector(disk: Cells, secsize: nat, i: nat) returns (s: Option<seq<byte>>)
    ensures s == MapSector(disk, secsize, i)
  {
    hide Transferred;
    var blk := new byte[SECTOR_SIZE];
    var nr := DiskRead(disk, blk, 0, SECTOR_SIZE, i * secsize);
    if nr != SECTOR_SIZE {
      return None;
    }
    assert blk[..] == Transferred(disk, i * secsize, SECTOR_SIZE);
    return Some(blk[..]);
  }
}
