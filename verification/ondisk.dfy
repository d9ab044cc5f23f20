/** The structures of a FAT volume as a formatter writes them, byte by byte, and what the driver
    makes of them. */
module OnDisk {
  import opened Arith
  import opened Bytes
  import opened Disks
  import opened Layouts
  import opened Volumes

  // ----- directory slots

  /** A slot of a directory, with the bytes the driver does not use. */
  datatype Slot = Slot(name: seq<byte>, attributes: byte, created: seq<byte>, cluster: u32, written: seq<byte>, size: u32) {
    predicate Valid() { |name| == 11 && |created| == 8 && |written| == 4 }

    /** Name at 0, attributes at 11, high half of the cluster at 20, low half at 26, size at 28. */
    function Bytes(): (s: seq<byte>)
      requires Valid()
      ensures |s| == 32
    {
      name + [attributes] + created + Word(cluster / 0x1_0000) + written + Word(cluster % 0x1_0000) + Long(size)
    }
  }

  /** Parsing a slot gives back every field. */
  lemma SlotRoundTrip(s: Slot)
    requires s.Valid()
    ensures var e := ParseEntry(s.Bytes());
      e.name == s.name && e.attributes == s.attributes && e.firstCluster == s.cluster && e.size == s.size
  {
    var b := s.Bytes();
    assert b[..11] == s.name && b[11] == s.attributes;
    assert b[20..22] == Word(s.cluster / 0x1_0000) && b[26..28] == Word(s.cluster % 0x1_0000) && b[28..32] == Long(s.size);
    WordAt(b, 20, s.cluster / 0x1_0000);
    WordAt(b, 26, s.cluster % 0x1_0000);
    LongAt(b, 28, s.size);
  }

  /** A directory is marked by bit 4 of the attributes. */
  lemma DirectoryBit(e: DirEntry)
    ensures e.IsDirectory() <==> (e.attributes as bv8) & 0x10 != 0
  {
  }

  /** Slot `k` of the root directory, where it is on the disk. */
  lemma RootSlot(v: Volume, k: nat, s: Slot)
    requires v.Good() && s.Valid() && 32 * k + 32 <= v.rootSize && v.rootLba + k / 16 < |v.img|
    requires v.img[v.rootLba + k / 16][k % 16 * 32..k % 16 * 32 + 32] == s.Bytes()
    ensures v.RootBytes()[32 * k..32 * k + 32] == s.Bytes()
  {
    forall j | 0 <= j < 32
      ensures v.RootBytes()[32 * k + j] == s.Bytes()[j]
    {
      assert (32 * k + j) / 512 == k / 16 && (32 * k + j) % 512 == k % 16 * 32 + j;
      assert v.img[v.rootLba + k / 16][k % 16 * 32..k % 16 * 32 + 32][j] == s.Bytes()[j];
    }
  }

  // ----- the boot sector

  /** The first sector of a volume: the fields at their places, and what is around them. */
  function BootBytes(bs: BootSector, jump: seq<byte>, media: byte, drive: seq<byte>, flags: seq<byte>, code: seq<byte>): (s: Sector)
    requires |jump| == 11 && |drive| == 8 && |flags| == 4 && |code| == 464
  {
    jump + Word(bs.bytesPerSector) + [bs.sectorsPerCluster] + Word(bs.reservedSectors) + [bs.fatCount]
    + Word(bs.dirEntryCount) + Word(bs.totalSectors) + [media] + Word(bs.sectorsPerFat) + drive
    + Long(bs.largeSectorCount) + Long(bs.sectorsPerFat32) + flags + Long(bs.rootDirectoryCluster) + code
  }

  lemma BootRoundTrip(bs: BootSector, jump: seq<byte>, media: byte, drive: seq<byte>, flags: seq<byte>, code: seq<byte>)
    requires |jump| == 11 && |drive| == 8 && |flags| == 4 && |code| == 464
    ensures ParseBootSector(BootBytes(bs, jump, media, drive, flags, code)) == bs
  {
    var s := BootBytes(bs, jump, media, drive, flags, code);
    assert s[11..13] == Word(bs.bytesPerSector) && s[13] == bs.sectorsPerCluster;
    assert s[14..16] == Word(bs.reservedSectors) && s[16] == bs.fatCount && s[17..19] == Word(bs.dirEntryCount);
    assert s[19..21] == Word(bs.totalSectors) && s[22..24] == Word(bs.sectorsPerFat);
    assert s[32..36] == Long(bs.largeSectorCount) && s[36..40] == Long(bs.sectorsPerFat32);
    assert s[44..48] == Long(bs.rootDirectoryCluster);
    WordAt(s, 11, bs.bytesPerSector);
    WordAt(s, 14, bs.reservedSectors);
    WordAt(s, 17, bs.dirEntryCount);
    WordAt(s, 19, bs.totalSectors);
    WordAt(s, 22, bs.sectorsPerFat);
    LongAt(s, 32, bs.largeSectorCount);
    LongAt(s, 36, bs.sectorsPerFat32);
    LongAt(s, 44, bs.rootDirectoryCluster);
  }

  /** Where everything is on a well-formed volume, computed without wrapping. */
  lemma Places(bs: BootSector, img: seq<Sector>)
    requires bs.Valid(|img|)
    ensures var v := VolumeOf(bs, img);
      var fat := if bs.sectorsPerFat != 0 then bs.sectorsPerFat else bs.sectorsPerFat32;
      var total := if bs.totalSectors != 0 then bs.totalSectors else bs.largeSectorCount;
      var tables: int := bs.reservedSectors + fat * bs.fatCount as int;
      && v.img == img && v.reserved == bs.reservedSectors && v.spc == bs.sectorsPerCluster
      && v.rootSize == 32 * bs.dirEntryCount
      && v.rootLba == (if bs.sectorsPerFat != 0 then tables else v.dataLba + (bs.rootDirectoryCluster - 2) * bs.sectorsPerCluster as int)
      && v.dataLba == tables + (32 * bs.dirEntryCount + 511) / 512
      && v.clusters == (total - v.dataLba) / bs.sectorsPerCluster as int
      && v.fatType == SpecifiedType(v.clusters)
  {
    Regions(bs, |img|);
    TypeByClusterCount(bs);
    Fits32(bs.Total() - bs.DataLba());
    if bs.IsFat32() {
      var c, spc: nat := bs.rootDirectoryCluster, bs.sectorsPerCluster;
      Fits32(c - 2);
      MulMono(0, c - 2, spc);
      MulMono(c - 1, bs.DataClusters(), spc);
      assert (c - 1) * spc == (c - 2) * spc + spc;
      Fits32(bs.DataLba() + (c - 2) * spc);
    }
  }

  // ----- the file allocation table

  /** The bytes of `table` are on the disk behind the reserved sectors, as far as they are inside
      the volume. */
  ghost predicate TableOnDisk(v: Volume, table: seq<byte>) {
    forall i: nat {:trigger ByteOnDisk(v, i, table[i])} :: i < |table| ==> ByteOnDisk(v, i, table[i])
  }

  ghost predicate ByteOnDisk(v: Volume, i: nat, b: byte) {
    v.reserved + i / 512 < |v.img| ==> v.img[v.reserved + i / 512][i % 512] == b
  }

  function Table16(entries: seq<u16>): (table: seq<byte>)
    ensures |table| == 2 * |entries|
  {
    if entries == [] then [] else Word(entries[0]) + Table16(entries[1..])
  }

  function Table32(entries: seq<u32>): (table: seq<byte>)
    ensures |table| == 4 * |entries|
  {
    if entries == [] then [] else Long(entries[0]) + Table32(entries[1..])
  }

  lemma {:induction false} Table16At(entries: seq<u16>, c: nat)
    requires c < |entries|
    ensures Le16(Table16(entries), 2 * c) == entries[c]
    decreases |entries|
  {
    var table, rest := Table16(entries), Table16(entries[1..]);
    assert table == Word(entries[0]) + rest;
    if c == 0 {
      WordAt(table, 0, entries[0]);
    } else {
      Table16At(entries[1..], c - 1);
      assert Le16(table, 2 * c) == Le16(rest, 2 * (c - 1));
    }
  }

  lemma {:induction false} Table32At(entries: seq<u32>, c: nat)
    requires c < |entries|
    ensures Le32(Table32(entries), 4 * c) == entries[c]
    decreases |entries|
  {
    var table, rest := Table32(entries), Table32(entries[1..]);
    assert table == Long(entries[0]) + rest;
    if c == 0 {
      LongAt(table, 0, entries[0]);
    } else {
      Table32At(entries[1..], c - 1);
      assert Le32(table, 4 * c) == Le32(rest, 4 * (c - 1));
    }
  }

  lemma TableByte(v: Volume, table: seq<byte>, i: nat, k: nat)
    requires TableOnDisk(v, table) && k < 4 && i + k < |table| && v.reserved + i / 512 + FAT_CACHE_SIZE <= |v.img|
    ensures v.reserved + (i + k) / 512 < |v.img| && v.FatByte(i + k) == table[i + k]
  {
    assert ByteOnDisk(v, i + k, table[i + k]);
  }

  /** The bytes of an entry with a window, joined to a number. */
  lemma TableWord(v: Volume, table: seq<byte>, i: nat)
    requires TableOnDisk(v, table) && v.reserved + i / 512 + FAT_CACHE_SIZE <= |v.img|
    ensures v.reserved + (i + 3) / 512 < |v.img|
    ensures v.fatType != 32 && i + 2 <= |table| ==> v.FatWord(i) == Le16(table, i)
    ensures v.fatType == 32 && i + 4 <= |table| ==> v.FatWord(i) == Le32(table, i)
  {
    if i + 2 <= |table| {
      TableByte(v, table, i, 0);
      TableByte(v, table, i, 1);
    }
    if i + 4 <= |table| {
      TableByte(v, table, i, 2);
      TableByte(v, table, i, 3);
    }
  }

  lemma Decodes(v: Volume, table: seq<byte>, c: u32, w: u32)
    requires (v.fatType == 16 || v.fatType == 32) && v.HasWindow(c) && TableOnDisk(v, table)
    requires v.fatType == 16 ==> 2 * c + 2 <= |table| && Le16(table, 2 * c) == w
    requires v.fatType == 32 ==> 4 * c + 4 <= |table| && Le32(table, 4 * c) == w
    ensures v.Next(c) == if v.fatType == 16 && w >= 0xFFF8 then 0xFFFF_0000 + w else w
  {
    TableWord(v, table, v.FatIndex(c));
  }

  /** On a FAT16 volume the successor of a cluster is its entry, and an end mark is widened. */
  lemma Table16Decodes(v: Volume, entries: seq<u16>, table: seq<byte>, c: u32)
    requires v.fatType == 16 && c < |entries| && v.HasWindow(c) && table == Table16(entries) && TableOnDisk(v, table)
    ensures v.Next(c) == if entries[c] >= 0xFFF8 then 0xFFFF_0000 + entries[c] as int else entries[c] as int
    ensures IsEnd(v.Next(c)) <==> entries[c] >= 0xFFF8
  {
    Table16At(entries, c);
    Decodes(v, table, c, entries[c]);
  }

  /** On a FAT32 volume it is the whole entry, reserved bits and all. */
  lemma Table32Decodes(v: Volume, entries: seq<u32>, table: seq<byte>, c: u32)
    requires v.fatType == 32 && c < |entries| && v.HasWindow(c) && table == Table32(entries) && TableOnDisk(v, table)
    ensures v.Next(c) == entries[c]
  {
    Table32At(entries, c);
    Decodes(v, table, c, entries[c]);
  }

  // ----- stored files

  /** Cluster `k` of a chain has a successor in the table, the last one an entry that is no cluster. */
  ghost predicate ChainedAt(v: Volume, cs: seq<u32>, k: nat) {
    k < |cs| ==>
      && v.IsData(cs[k]) && v.HasWindow(cs[k])
      && if k + 1 < |cs| then v.Next(cs[k]) == cs[k + 1] else !v.IsData(v.Next(cs[k]))
  }

  ghost predicate Chained(v: Volume, cs: seq<u32>) {
    cs != [] && forall k: nat :: ChainedAt(v, cs, k)
  }

  lemma {:induction false} ChainOf(v: Volume, cs: seq<u32>, fuel: nat)
    requires v.Good() && Chained(v, cs) && |cs| <= fuel
    ensures v.Chain(cs[0], fuel) == cs
    decreases fuel
  {
    assert ChainedAt(v, cs, 0);
    var rest := cs[1..];
    if rest != [] {
      forall k: nat
        ensures ChainedAt(v, rest, k)
      {
        assert ChainedAt(v, cs, k + 1);
      }
      ChainOf(v, rest, fuel - 1);
    } else if fuel > 1 {
      assert v.Chain(v.Next(cs[0]), fuel - 1) == [];
    }
  }

  /** A chain that ends never comes back to a cluster. */
  lemma {:induction false} ChainedDistinct(v: Volume, cs: seq<u32>, i: nat, j: nat)
    requires Chained(v, cs) && i < j < |cs|
    ensures cs[i] != cs[j]
    decreases |cs| - j
  {
    assert ChainedAt(v, cs, i) && ChainedAt(v, cs, j) && ChainedAt(v, cs, i + 1);
    if j + 1 < |cs| {
      ChainedDistinct(v, cs, i + 1, j + 1);
    }
  }

  /** So it is no longer than there are clusters. */
  lemma {:induction false} DistinctFit(cs: seq<u32>, n: nat)
    requires forall k :: 0 <= k < |cs| ==> 2 <= cs[k] < n + 2
    requires forall i, j :: 0 <= i < j < |cs| ==> cs[i] != cs[j]
    ensures |cs| <= n
  {
    if cs != [] {
      assert 2 <= cs[0] < n + 2;
      var m, rest := |cs|, cs;
      if k :| 0 <= k < |cs| && cs[k] == n + 1 {
        m, rest := k, cs[..k] + cs[k + 1..];
      }
      forall k | 0 <= k < |rest|
        ensures 2 <= rest[k] < n + 1
      {
        assert rest[k] == cs[if k < m then k else k + 1];
      }
      DistinctFit(rest, n - 1);
    }
  }

  /** Byte `i` of sector `s` of cluster `k` of a file is where it belongs. */
  ghost predicate LaidAt(v: Volume, cs: seq<u32>, data: seq<byte>, k: nat, s: nat, i: nat) {
    k < |cs| && s < v.spc && i < 512 && (k * v.spc + s) * 512 + i < |data| ==>
      && 0 <= v.dataLba + (cs[k] - 2) * v.spc + s < |v.img|
      && v.img[v.dataLba + (cs[k] - 2) * v.spc + s][i] == data[(k * v.spc + s) * 512 + i]
  }

  ghost predicate Laid(v: Volume, cs: seq<u32>, data: seq<byte>) {
    forall k: nat, s: nat, i: nat :: LaidAt(v, cs, data, k, s, i)
  }

  /** A file that has been stored in a chain of clusters is what its entry stands for. */
  lemma StoredFile(v: Volume, cs: seq<u32>, data: seq<byte>, e: DirEntry)
    requires v.Good() && Chained(v, cs) && Laid(v, cs, data)
    requires e.firstCluster == cs[0] && !e.IsDirectory() && e.size == |data| <= |cs| * v.spc * 512
    ensures v.Chain(cs[0], v.clusters) == cs && v.Content(e) == data
  {
    ChainFits(v, cs);
    ChainOf(v, cs, v.clusters);
    assert v.EntryChain(e) == cs && v.Limit(e) == |data|;
    forall p | 0 <= p < |data|
      ensures v.Content(e)[p] == data[p]
    {
      StoredByte(v, cs, data, p);
    }
  }

  lemma StoredByte(v: Volume, cs: seq<u32>, data: seq<byte>, p: nat)
    requires v.Good() && v.AllData(cs) && Laid(v, cs, data) && p < |data| <= |cs| * v.spc * 512
    ensures v.ChainByte(cs, p) == data[p]
  {
    var n, i := p / 512, p % 512;
    DivMod(p, 512);
    QuotientBound(p, 512, |cs| * v.spc);
    DivMod(n, v.spc);
    QuotientBound(n, v.spc, |cs|);
    Remainder(n, v.spc);
    assert LaidAt(v, cs, data, n / v.spc, n % v.spc, i);
  }

  lemma ChainFits(v: Volume, cs: seq<u32>)
    requires v.Good() && Chained(v, cs)
    ensures |cs| <= v.clusters
  {
    forall k | 0 <= k < |cs|
      ensures 2 <= cs[k] < v.clusters + 2
    {
      assert ChainedAt(v, cs, k);
    }
    forall i, j | 0 <= i < j < |cs|
      ensures cs[i] != cs[j]
    {
      ChainedDistinct(v, cs, i, j);
    }
    DistinctFit(cs, v.clusters);
  }
}
