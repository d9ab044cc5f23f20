/** What a FAT volume means: its regions, its cluster chains, and the flat bytes of a file.
    Nothing here has state; the driver is proved against it. */
module Volumes {
  import opened Arith
  import opened Bytes
  import opened Disks

  const END_OF_CHAIN := 0xFFFF_FFF8
  const FAT_CACHE_SIZE := 5
  const NO_WINDOW: u32 := 0xFFFF_FFFF
  const MAX_CLUSTERS := 0x1000_0000
  const DIRECTORY_ENTRY_SIZE := 32

  /** The fields of the boot sector that the driver uses. */
  datatype BootSector = BootSector(
    bytesPerSector: u16, sectorsPerCluster: byte, reservedSectors: u16, fatCount: byte,
    dirEntryCount: u16, totalSectors: u16, sectorsPerFat: u16, largeSectorCount: u32,
    sectorsPerFat32: u32, rootDirectoryCluster: u32)
  {
    function Total(): u32 {
      if totalSectors == 0 then largeSectorCount else totalSectors
    }

    predicate IsFat32() { sectorsPerFat == 0 }

    function FatSectors(): u32 {
      if IsFat32() then sectorsPerFat32 else sectorsPerFat
    }

    /** First sector after the file allocation tables. */
    function FatEnd(): u32 {
      U32(reservedSectors + FatSectors() * fatCount as int)
    }

    function RootSize(): nat { DIRECTORY_ENTRY_SIZE * dirEntryCount }

    function RootSectors(): nat
      requires bytesPerSector > 0
    {
      (RootSize() + bytesPerSector - 1) / bytesPerSector
    }

    function DataLba(): u32
      requires bytesPerSector > 0
    {
      if IsFat32() then FatEnd() else U32(FatEnd() + RootSectors())
    }

    function RootLba(): u32
      requires bytesPerSector > 0
    {
      if IsFat32() then U32(DataLba() + U32(rootDirectoryCluster - 2) * sectorsPerCluster as int) else FatEnd()
    }

    function DataClusters(): u32
      requires bytesPerSector > 0 && sectorsPerCluster > 0
    {
      U32(Total() - DataLba()) / sectorsPerCluster
    }

    /** `FAT_Detect`. */
    function FatType(): nat
      requires bytesPerSector > 0 && sectorsPerCluster > 0
    {
      if DataClusters() < 0xFF5 then 12 else if sectorsPerFat != 0 then 16 else 32
    }

    /** A well-formed volume of `sectors` sectors, in the terms of the FAT specification: 512-byte
        sectors, the regions laid out one after the other inside the volume, and a FAT with
        room for every cluster. The 16-bit sector count of a FAT is zero exactly from
        65525 clusters on. The last conjunct keeps the 5-sector window inside the volume. */
    predicate Valid(sectors: nat) {
      && bytesPerSector == 512 && sectorsPerCluster > 0 && fatCount > 0
      && sectors < 0x1_0000_0000 && Total() <= sectors
      && reservedSectors + FatSectors() * fatCount as int + RootSectors() + sectorsPerCluster <= Total()
      && DataClusters() < 0x0FFF_FFF0
      && (IsFat32() <==> DataClusters() >= 65525) && (IsFat32() ==> dirEntryCount == 0)
      && (IsFat32() ==> 2 <= rootDirectoryCluster < DataClusters() + 2)
      && FatBytes(FatType(), DataClusters() + 2) <= FatSectors() * 512
      && reservedSectors + FatSectors() + FAT_CACHE_SIZE <= sectors + 1
    }
  }

  function ParseBootSector(s: Sector): BootSector {
    BootSector(Le16(s, 11), s[13], Le16(s, 14), s[16], Le16(s, 17), Le16(s, 19), Le16(s, 22),
               Le32(s, 32), Le32(s, 36), Le32(s, 44))
  }

  /** Bytes taken by a table of `entries` entries. */
  function FatBytes(fatType: nat, entries: nat): nat {
    if fatType == 12 then (entries * 3 + 1) / 2 else if fatType == 16 then entries * 2 else entries * 4
  }

  datatype DirEntry = DirEntry(name: seq<byte>, attributes: byte, firstCluster: u32, size: u32) {
    predicate IsDirectory() { attributes / 0x10 % 2 == 1 }
  }

  function ParseEntry(s: seq<byte>): DirEntry
    requires |s| == DIRECTORY_ENTRY_SIZE
  {
    DirEntry(s[..11], s[11], Le16(s, 26) as int + 0x1_0000 * Le16(s, 20) as int, Le32(s, 28))
  }

  predicate IsEnd(c: u32) { c >= END_OF_CHAIN }

  lemma SplitWord(lo: byte, hi: byte)
    ensures (lo as int + 0x100 * hi as int) % 0x1000 == lo as int + 0x100 * (hi as int % 16)
    ensures (lo as int + 0x100 * hi as int) / 16 == lo as int / 16 + 16 * hi as int
  {
  }

  datatype Volume = Volume(
    img: seq<Sector>, fatType: nat, reserved: nat, spc: nat, dataLba: nat, clusters: nat,
    rootLba: nat, rootSize: nat)
  {
    ghost predicate Good() {
      && (fatType == 12 || fatType == 16 || fatType == 32) && 1 <= spc <= 255
      && |img| < 0x1_0000_0000 && 0 < clusters < 0x0FFF_FFF0
      && (forall c: u32 :: IsData(c) ==> ClusterFits(c) && HasWindow(c))
      && (forall n: nat :: RootHas(n) ==> rootLba + n < |img|) && rootSize < 0x1_0000_0000
    }

    /** Sector `n` of the root directory, or the one behind it, into which a scan of the whole
        directory reads ahead. */
    predicate RootHas(n: nat) { n * 512 <= rootSize }

    predicate IsData(c: u32) { 2 <= c < clusters + 2 }

    predicate ClusterFits(c: u32) {
      dataLba + (c - 2) * spc + spc <= |img|
    }

    /** `FAT_ClusterToLba`, in 32-bit arithmetic. */
    function ClusterToLba(c: u32): u32 {
      U32(dataLba + U32(c - 2) * spc)
    }

    // ----- the file allocation table

    /** Byte offset of an entry in the table. */
    function FatIndex(c: nat): nat {
      if fatType == 12 then c * 3 / 2 else if fatType == 16 then c * 2 else c * 4
    }

    /** The five sectors from the one holding the entry of `c` on are inside the volume. */
    predicate HasWindow(c: u32) {
      c < MAX_CLUSTERS && reserved + FatIndex(c) / 512 + FAT_CACHE_SIZE <= |img|
    }

    function FatByte(i: nat): byte
      requires reserved + i / 512 < |img|
    {
      SectorByte(img, reserved, i)
    }

    function Decode(c: u32, word: u32): u32
      requires fatType != 32 ==> word < 0x1_0000
    {
      if fatType == 12 then
        var raw := if c % 2 == 0 then word % 0x1000 else word / 16;
        if raw >= 0xFF8 then raw + 0xFFFF_F000 else raw
      else if fatType == 16 then
        if word >= 0xFFF8 then word + 0xFFFF_0000 else word
      else
        word
    }

    function FatWord(i: nat): (word: u32)
      requires reserved + (i + 3) / 512 < |img|
      ensures fatType != 32 ==> word < 0x1_0000
    {
      FatByte(i) as int + 0x100 * FatByte(i + 1) as int +
      if fatType == 32 then 0x1_0000 * FatByte(i + 2) as int + 0x100_0000 * FatByte(i + 3) as int else 0
    }

    /** The successor of a cluster, read straight off the disk. */
    function Next(c: u32): u32
      requires HasWindow(c)
    {
      Decode(c, FatWord(FatIndex(c)))
    }

    /** The end marks of the format: FAT32 entries are 28 bits wide. */
    predicate EndMark(c: u32, word: u32) {
      if fatType == 12 then (if c % 2 == 0 then word % 0x1000 else word / 16) >= 0xFF8
      else if fatType == 16 then word >= 0xFFF8
      else word % 0x1000_0000 >= 0x0FFF_FFF8
    }

    /** Which of them the driver recognises: all on FAT12 and FAT16, but on FAT32 only those
        whose four reserved bits happen to be set. */
    lemma EndMarkExact(c: u32, word: u32)
      requires fatType == 12 || fatType == 16 || fatType == 32
      requires fatType != 32 ==> word < 0x1_0000
      ensures IsEnd(Decode(c, word)) <==> EndMark(c, word) && (fatType == 32 ==> word / 0x1000_0000 == 15)
    {
      if fatType == 12 {
        SplitWord(word % 0x100, word / 0x100);
      }
    }

    /** A 12-bit entry that can begin on the very last byte of a window: its two bytes lie in
        different sectors, and there are five sectors of the table up to the first of them. */
    predicate CanOverrun(c: u32) {
      fatType == 12 && FatIndex(c) % 512 == 511 && FatIndex(c) >= 2559
    }

    /** A failing input: the most common end mark of FAT32, written with its reserved bits clear. */
    lemma ClearReservedBits(c: u32)
      requires fatType == 32
      ensures EndMark(c, 0x0FFF_FFFF) && !IsEnd(Decode(c, 0x0FFF_FFFF))
    {
      assert 0x0FFF_FFFF % 0x1000_0000 == 0x0FFF_FFFF;
    }

    // ----- the sliding window over the table

    predicate InWindow(pos: u32, c: u32) {
      pos <= FatIndex(c) / 512 < pos + FAT_CACHE_SIZE
    }

    /** Where the window is after the entry of `c` was looked up with the window at `pos`. */
    function WindowAfter(pos: u32, c: u32): (r: u32)
      requires c < MAX_CLUSTERS
      ensures InWindow(r, c)
    {
      if InWindow(pos, c) then pos else FatIndex(c) / 512
    }

    /** The entry begins on the very last byte of the window. */
    predicate Overruns(pos: u32, c: u32) {
      fatType == 12 && FatIndex(c) == pos * 512 + 2559
    }

    /** These are exactly the entries for which there is such a window. */
    lemma CanOverrunExact(c: u32)
      requires c < MAX_CLUSTERS
      ensures CanOverrun(c) <==> exists pos: u32 :: Overruns(pos, c)
    {
      if CanOverrun(c) {
        var pos: u32 := (FatIndex(c) - 2559) / 512;
        assert Overruns(pos, c);
      }
    }

    /** The word that a lookup decodes, with a correct window at `pos`. The byte after the window
        is the low byte of the window position itself, which follows it in memory. */
    function CachedWord(pos: u32, c: u32): (word: u32)
      requires HasWindow(c) && InWindow(pos, c)
      ensures fatType != 32 ==> word < 0x1_0000
    {
      if Overruns(pos, c) then FatByte(FatIndex(c)) as int + 0x100 * (pos % 0x100) else FatWord(FatIndex(c))
    }

    function CachedNext(pos: u32, c: u32): u32
      requires HasWindow(c) && InWindow(pos, c)
    {
      Decode(c, CachedWord(pos, c))
    }

    ghost predicate HoldsWindow(cache: seq<byte>, pos: u32) {
      reserved + pos + FAT_CACHE_SIZE <= |img| && cache == SectorBytes(img, reserved + pos, FAT_CACHE_SIZE)
    }

    /** The word loaded `at` bytes into the cache. The 16-bit load of an entry on the last byte
        also takes in the low byte of the window position. */
    function LoadedWord(cache: seq<byte>, pos: u32, at: nat): (word: u32)
      requires |cache| == 2560 && at < 2560 && (fatType == 32 ==> at + 4 <= 2560)
      ensures fatType != 32 ==> word < 0x1_0000
    {
      if fatType == 32 then Le32(cache, at)
      else cache[at] as int + 0x100 * if at == 2559 then pos % 0x100 else cache[at + 1] as int
    }

    lemma CachedByte(cache: seq<byte>, pos: u32, at: nat)
      requires HoldsWindow(cache, pos) && at < 2560
      ensures cache[at] == SectorByte(img, reserved + pos, at) == FatByte(pos * 512 + at)
    {
      SectorSplit(pos, at);
    }

    /** With a correct window the word loaded is the one that `CachedNext` decodes. */
    lemma LoadedIsCached(cache: seq<byte>, pos: u32, c: u32, at: nat)
      requires HoldsWindow(cache, pos) && HasWindow(c) && InWindow(pos, c)
      requires at == FatIndex(c) - pos * 512 && at < 2560 && (fatType == 32 ==> at + 4 <= 2560)
      requires fatType != 12 ==> at + 2 <= 2560
      ensures LoadedWord(cache, pos, at) == CachedWord(pos, c)
    {
      CachedByte(cache, pos, at);
      if at + 1 < 2560 {
        CachedByte(cache, pos, at + 1);
      }
      if fatType == 32 {
        CachedByte(cache, pos, at + 2);
        CachedByte(cache, pos, at + 3);
      }
    }

    lemma DecodeInjective(c: u32, lo: byte, hi: byte, stray: byte)
      requires fatType == 12
      ensures Decode(c, lo as int + 0x100 * hi as int) == Decode(c, lo as int + 0x100 * stray as int) <==>
        if c % 2 == 0 then hi as int % 16 == stray as int % 16 else hi == stray
    {
      SplitWord(lo, hi);
      SplitWord(lo, stray);
    }

    /** The stray byte after the window agrees with the byte on the disk, as far as it is used. */
    predicate StrayAgrees(pos: u32, c: u32)
      requires HasWindow(c)
    {
      if c % 2 == 0 then FatByte(FatIndex(c) + 1) as int % 16 == pos % 0x100 % 16
      else FatByte(FatIndex(c) + 1) == pos % 0x100
    }

    /** Exactly when the window is invisible: no overrun, or the stray bits happen to agree. */
    lemma CacheInvisible(pos: u32, c: u32)
      requires HasWindow(c) && InWindow(pos, c)
      ensures CachedNext(pos, c) == Next(c) <==> (Overruns(pos, c) ==> StrayAgrees(pos, c))
    {
      if Overruns(pos, c) {
        DecodeInjective(c, FatByte(FatIndex(c)), FatByte(FatIndex(c) + 1), pos % 0x100);
      }
    }

    /** A miss always re-centres the window so that the entry is read in full. */
    lemma MissIsRight(pos: u32, c: u32)
      requires HasWindow(c) && !InWindow(pos, c)
      ensures CachedNext(WindowAfter(pos, c), c) == Next(c)
    {
    }

    /** An entry is right in the one window it can overrun, if there is one. */
    predicate AlwaysRight(c: u32)
      requires HasWindow(c)
    {
      CanOverrun(c) ==> StrayAgrees((FatIndex(c) - 2559) / 512, c)
    }

    lemma SafeEntry(pos: u32, c: u32)
      requires HasWindow(c) && InWindow(pos, c) && AlwaysRight(c)
      ensures CachedNext(pos, c) == Next(c)
    {
      if Overruns(pos, c) {
        CacheInvisible(pos, c);
      }
    }

    /** Whatever window covers the entry, the lookup gives what the disk says. */
    ghost predicate RightThroughout(c: u32)
      requires HasWindow(c)
    {
      forall pos: u32 :: InWindow(pos, c) ==> CachedNext(pos, c) == Next(c)
    }

    /** The two are the same: a condition on one byte of the table decides for all windows. */
    lemma AlwaysRightExact(c: u32)
      requires HasWindow(c)
      ensures RightThroughout(c) <==> AlwaysRight(c)
    {
      if AlwaysRight(c) {
        forall pos: u32 | InWindow(pos, c)
          ensures CachedNext(pos, c) == Next(c)
        {
          SafeEntry(pos, c);
        }
      } else {
        var pos: u32 := (FatIndex(c) - 2559) / 512;
        CacheInvisible(pos, c);
        assert InWindow(pos, c) && CachedNext(pos, c) != Next(c);
      }
    }

    /** The first cluster to go wrong: with the window at the start of the table, the entry of
        cluster 1706 begins at offset 2559 and is right only if four bits happen to be clear. */
    lemma Cluster1706()
      requires fatType == 12 && HasWindow(1706)
      ensures Overruns(0, 1706)
      ensures CachedNext(0, 1706) == Next(1706) <==> FatByte(2560) % 16 == 0
    {
      CacheInvisible(0, 1706);
    }

    /** Successive lookups, the window carried from one to the next. */
    function Lookups(pos: u32, cs: seq<u32>): seq<u32>
      requires forall k :: 0 <= k < |cs| ==> HasWindow(cs[k])
      decreases |cs|
    {
      if cs == [] then []
      else
        assert HasWindow(cs[0]);
        var w := WindowAfter(pos, cs[0]);
        [CachedNext(w, cs[0])] + Lookups(w, cs[1..])
    }

    /** Where the window is when lookup `k` of a run decodes its entry. */
    function WindowAt(pos: u32, cs: seq<u32>, k: nat): u32
      requires k < |cs| && forall i :: 0 <= i < |cs| ==> HasWindow(cs[i])
      decreases k
    {
      assert HasWindow(cs[0]);
      var w := WindowAfter(pos, cs[0]);
      if k == 0 then w else WindowAt(w, cs[1..], k - 1)
    }

    /** Whatever was looked up before, a lookup gives what the disk says, if and only if it does
        not run over the end of the window that the history left, or the stray bits agree. */
    lemma {:induction false} HistoryInvisible(pos: u32, cs: seq<u32>, k: nat)
      requires k < |cs| && forall i :: 0 <= i < |cs| ==> HasWindow(cs[i])
      ensures k < |Lookups(pos, cs)| && InWindow(WindowAt(pos, cs, k), cs[k])
      ensures var w := WindowAt(pos, cs, k);
        Lookups(pos, cs)[k] == Next(cs[k]) <==> (Overruns(w, cs[k]) ==> StrayAgrees(w, cs[k]))
      decreases k
    {
      assert HasWindow(cs[0]);
      var w, rest := WindowAfter(pos, cs[0]), cs[1..];
      if k == 0 {
        CacheInvisible(w, cs[0]);
      } else {
        HistoryInvisible(w, rest, k - 1);
        assert rest[k - 1] == cs[k];
      }
    }

    /** In particular entries that are right with every window are right after any history. */
    lemma HistoryRight(pos: u32, cs: seq<u32>, k: nat)
      requires k < |cs| && forall i :: 0 <= i < |cs| ==> HasWindow(cs[i])
      requires AlwaysRight(cs[k])
      ensures k < |Lookups(pos, cs)| && Lookups(pos, cs)[k] == Next(cs[k])
    {
      HistoryInvisible(pos, cs, k);
    }

    // ----- chains and files

    lemma ClusterInside(c: u32)
      requires IsData(c)
      ensures 0 <= (c - 2) * spc
      ensures dataLba + (c - 2) * spc + spc <= dataLba + clusters * spc
    {
      MulMono(c - 1, clusters, spc);
      MulMono(0, c - 2, spc);
      assert (c - 1) * spc == (c - 2) * spc + spc;
    }

    lemma DataCluster(c: u32)
      requires Good() && IsData(c)
      ensures HasWindow(c) && !IsEnd(c)
      ensures 0 <= (c - 2) * spc && dataLba + (c - 2) * spc + spc <= |img|
    {
      MulMono(0, c - 2, spc);
      assert ClusterFits(c);
    }

    lemma DataClusterLba(c: u32)
      requires Good() && IsData(c)
      ensures ClusterToLba(c) == dataLba + (c - 2) * spc
    {
      DataCluster(c);
      Fits32(c - 2);
      Fits32(dataLba + (c - 2) * spc);
    }

    /** The chain from `c`, up to the first value that is not a data cluster. */
    function Chain(c: u32, fuel: nat): (chain: seq<u32>)
      requires Good()
      ensures forall k :: 0 <= k < |chain| ==> IsData(chain[k]) && HasWindow(chain[k])
      decreases fuel
    {
      if fuel == 0 || !IsData(c) then []
      else
        DataCluster(c);
        [c] + Chain(Next(c), fuel - 1)
    }

    /** If cluster `k` of a chain has a successor, the driver finds it with any window. */
    ghost predicate LinkAt(chain: seq<u32>, k: nat) {
      k < |chain| ==>
        && IsData(chain[k]) && HasWindow(chain[k])
        && (k + 1 < |chain| ==> AlwaysRight(chain[k]) && Next(chain[k]) == chain[k + 1])
    }

    ghost predicate Linked(chain: seq<u32>) {
      forall k: nat :: LinkAt(chain, k)
    }

    /** The link out of the last cluster is an end mark that the driver recognises. */
    ghost predicate EndsAt(chain: seq<u32>, k: nat) {
      k + 1 == |chain| ==> HasWindow(chain[k]) && AlwaysRight(chain[k]) && IsEnd(Next(chain[k]))
    }

    ghost predicate Ends(chain: seq<u32>) {
      chain != [] && forall k: nat :: EndsAt(chain, k)
    }

    predicate AllData(chain: seq<u32>) {
      forall k :: 0 <= k < |chain| ==> IsData(chain[k])
    }

    lemma LinkedData(chain: seq<u32>)
      requires Linked(chain)
      ensures AllData(chain)
    {
      forall k | 0 <= k < |chain|
        ensures IsData(chain[k])
      {
        assert LinkAt(chain, k);
      }
    }

    /** Wherever the window is, the lookup of entry `k` gives the cluster after it, if there is one. */
    ghost predicate FollowedAt(chain: seq<u32>, k: nat) {
      k + 1 < |chain| ==>
        HasWindow(chain[k]) && forall pos: u32 :: InWindow(pos, chain[k]) ==> CachedNext(pos, chain[k]) == chain[k + 1]
    }

    /** Wherever the window is, the lookup of the last entry gives a recognised end mark. */
    ghost predicate EndSeen(c: u32) {
      HasWindow(c) && forall pos: u32 :: InWindow(pos, c) ==> IsEnd(CachedNext(pos, c))
    }

    lemma {:induction false} ChainLinked(c: u32, fuel: nat)
      requires Good() && forall k: nat :: k + 1 < |Chain(c, fuel)| ==> AlwaysRight(Chain(c, fuel)[k])
      ensures Linked(Chain(c, fuel))
      decreases fuel
    {
      if fuel > 0 && IsData(c) {
        DataCluster(c);
        var rest := Chain(Next(c), fuel - 1);
        assert Chain(c, fuel) == [c] + rest;
        assert forall k: nat :: k < |rest| ==> rest[k] == Chain(c, fuel)[k + 1];
        ChainLinked(Next(c), fuel - 1);
        forall k: nat
          ensures LinkAt(Chain(c, fuel), k)
        {
          assert k > 0 ==> LinkAt(rest, k - 1);
        }
      }
    }

    /** A chain is linked if and only if all its lookups, with whatever window, lead along it. */
    lemma LinkedExact(e: DirEntry)
      requires Good()
      ensures Linked(EntryChain(e)) <==> forall k: nat :: FollowedAt(EntryChain(e), k)
    {
      var chain := EntryChain(e);
      ChainLinks(e.firstCluster, clusters);
      if forall k: nat :: FollowedAt(chain, k) {
        forall k: nat | k + 1 < |chain|
          ensures AlwaysRight(chain[k])
        {
          assert FollowedAt(chain, k) && Next(chain[k]) == chain[k + 1];
          AlwaysRightExact(chain[k]);
        }
        ChainLinked(e.firstCluster, clusters);
      } else if Linked(chain) {
        var k: nat :| !FollowedAt(chain, k);
        assert LinkAt(chain, k);
        AlwaysRightExact(chain[k]);
      }
    }

    lemma {:induction false} ChainLinks(c: u32, fuel: nat)
      requires Good()
      ensures forall k: nat :: k + 1 < |Chain(c, fuel)| ==> Next(Chain(c, fuel)[k]) == Chain(c, fuel)[k + 1]
      decreases fuel
    {
      if fuel > 0 && IsData(c) {
        DataCluster(c);
        var chain, rest := Chain(c, fuel), Chain(Next(c), fuel - 1);
        assert chain == [c] + rest;
        ChainLinks(Next(c), fuel - 1);
        forall k: nat | k + 1 < |chain|
          ensures Next(chain[k]) == chain[k + 1]
        {
          assert k > 0 ==> chain[k] == rest[k - 1];
        }
      }
    }

    /** The end of a chain counts as recognised if and only if every lookup recognises it. */
    lemma EndsExact(chain: seq<u32>)
      requires chain != [] && HasWindow(chain[|chain| - 1])
      ensures Ends(chain) <==> EndSeen(chain[|chain| - 1])
    {
      var last := chain[|chain| - 1];
      assert Ends(chain) ==> EndsAt(chain, |chain| - 1);
      AlwaysRightExact(last);
      if EndSeen(last) {
        var pos: u32 := FatIndex(last) / 512;
        assert InWindow(pos, last) && CachedNext(pos, last) == Next(last);
        EndAgrees(last);
      }
    }

    /** If all lookups end, the stray bits agree. */
    lemma EndAgrees(c: u32)
      requires EndSeen(c) && IsEnd(Next(c))
      ensures AlwaysRight(c)
    {
      if CanOverrun(c) {
        var pos: u32 := (FatIndex(c) - 2559) / 512;
        assert Overruns(pos, c) && IsEnd(CachedNext(pos, c));
        EndBytes(c, FatByte(FatIndex(c)), FatByte(FatIndex(c) + 1), pos % 0x100);
        CacheInvisible(pos, c);
      }
    }

    /** Two 12-bit end marks with the same first byte have the same bits in the second. */
    lemma EndBytes(c: u32, lo: byte, hi: byte, stray: byte)
      requires fatType == 12
      requires IsEnd(Decode(c, lo as int + 0x100 * hi as int)) && IsEnd(Decode(c, lo as int + 0x100 * stray as int))
      ensures Decode(c, lo as int + 0x100 * hi as int) == Decode(c, lo as int + 0x100 * stray as int)
    {
      SplitWord(lo, hi);
      SplitWord(lo, stray);
    }

    /** Sector `n` of the file stored in `chain`. */
    function ChainLba(chain: seq<u32>, n: nat): int
      requires spc > 0 && n / spc < |chain|
    {
      dataLba + (chain[n / spc] - 2) * spc + n % spc
    }

    lemma ChainLbaInside(chain: seq<u32>, n: nat)
      requires Good() && n < |chain| * spc && AllData(chain)
      ensures n / spc < |chain| && dataLba <= ChainLba(chain, n) < |img|
    {
      QuotientBound(n, spc, |chain|);
      Remainder(n, spc);
      DataCluster(chain[n / spc]);
    }

    /** Sector `n` of a file is in its cluster number `k`. */
    ghost predicate Block(n: nat, k: nat)
      requires spc > 0
    {
      k == n / spc
    }

    /** A cursor (cluster, sector in cluster) stands at sector `n` of a chain. */
    ghost predicate At(chain: seq<u32>, n: nat, cluster: u32, sector: nat)
      requires spc > 0
    {
      forall k: nat :: Block(n, k) ==> k < |chain| && cluster == chain[k] && sector == n % spc
    }

    /** From sector `n` to the next one of the same cluster. */
    lemma StepWithin(chain: seq<u32>, n: nat, cluster: u32, sector: nat)
      requires spc > 0 && At(chain, n, cluster, sector) && sector + 1 < spc
      ensures n + 1 < |chain| * spc && At(chain, n + 1, cluster, sector + 1)
    {
      Remainder(n, spc);
      assert Block(n, n / spc);
      BlockStep(n, spc);
      DivMod(n, spc);
      BlockBound(n / spc, n % spc + 1, spc, |chain|);
    }

    /** From the last sector of a cluster to the first one of the next, if there is one. */
    lemma StepAcross(chain: seq<u32>, n: nat, cluster: u32, sector: nat)
      requires spc > 0 && Linked(chain) && At(chain, n, cluster, sector) && sector + 1 >= spc
      ensures HasWindow(cluster)
      ensures n + 1 <= |chain| * spc
      ensures n + 1 < |chain| * spc ==> AlwaysRight(cluster) && At(chain, n + 1, Next(cluster), 0)
      ensures n + 1 == |chain| * spc && Ends(chain) ==> AlwaysRight(cluster) && IsEnd(Next(cluster))
    {
      Remainder(n, spc);
      assert Block(n, n / spc);
      assert LinkAt(chain, n / spc);
      BlockStep(n, spc);
      DivMod(n, spc);
      var k := n / spc + 1;
      assert n + 1 == k * spc;
      if k < |chain| {
        BlockBound(k, 0, spc, |chain|);
      } else {
        assert Ends(chain) ==> EndsAt(chain, k - 1);
      }
    }

    lemma AtIsData(chain: seq<u32>, n: nat, cluster: u32, sector: nat)
      requires Good() && Linked(chain) && At(chain, n, cluster, sector)
      ensures IsData(cluster) && !IsEnd(cluster)
      ensures n / spc < |chain| && 0 <= ChainLba(chain, n) < |img|
      ensures U32(ClusterToLba(cluster) + sector) == ChainLba(chain, n)
    {
      Remainder(n, spc);
      assert Block(n, n / spc);
      assert LinkAt(chain, n / spc);
      DataCluster(cluster);
      DataClusterLba(cluster);
      Fits32(dataLba + (cluster - 2) * spc + sector);
    }

    function ChainByte(chain: seq<u32>, p: nat): byte
      requires Good() && p < |chain| * spc * 512 && AllData(chain)
    {
      QuotientBound(p, 512, |chain| * spc);
      ChainLbaInside(chain, p / 512);
      img[ChainLba(chain, p / 512)][p % 512]
    }

    /** The first `limit` bytes stored in a chain. */
    function ChainBytes(chain: seq<u32>, limit: nat): (s: seq<byte>)
      requires Good() && limit <= |chain| * spc * 512 && AllData(chain)
      ensures |s| == limit
    {
      seq(limit, p requires 0 <= p < limit => ChainByte(chain, p))
    }

    /** A sector buffer and the contents it is a part of agree. */
    lemma SectorOfChain(chain: seq<u32>, limit: nat, n: nat, i: nat)
      requires Good() && limit <= |chain| * spc * 512 && AllData(chain)
      requires i < 512 && n * 512 + i < limit && n / spc < |chain| && 0 <= ChainLba(chain, n) < |img|
      ensures SectorBytes(img, ChainLba(chain, n), 1)[i] == ChainBytes(chain, limit)[n * 512 + i]
    {
      SectorSplit(n, i);
    }

    lemma SectorOfRoot(n: nat, i: nat)
      requires Good() && i < 512 && n * 512 + i < rootSize && RootHas(n)
      ensures RootSector(n)[i] == RootBytes()[n * 512 + i]
    {
      SectorSplit(n, i);
    }

    function RootSector(n: nat): Sector
      requires Good() && RootHas(n)
    {
      img[rootLba + n]
    }

    /** Sector `n` of the root directory looks like the first one. */
    predicate LikeFirst(n: nat)
      requires Good() && RootHas(n)
    {
      RootSector(n) == RootSector(0)
    }

    function RootBytes(): (s: seq<byte>)
      requires Good()
      ensures |s| == rootSize
    {
      seq(rootSize, p requires 0 <= p < rootSize =>
        assert RootHas(p / 512);
        img[rootLba + p / 512][p % 512])
    }

    function EntryChain(e: DirEntry): seq<u32>
      requires Good()
    {
      Chain(e.firstCluster, clusters)
    }

    /** A directory of recorded size 0 extends over its whole chain; anything else is cut to its
        size, or to its chain if that is shorter. */
    function Limit(e: DirEntry): nat
      requires Good()
    {
      var room := |EntryChain(e)| * spc * 512;
      if e.IsDirectory() && e.size == 0 then room else Min(e.size, room)
    }

    /** The contents of the file or directory that an entry describes. */
    function Content(e: DirEntry): (s: seq<byte>)
      requires Good()
      ensures |s| == Limit(e)
    {
      ChainBytes(EntryChain(e), Limit(e))
    }

    /** Entries the driver reads correctly: lookups lead along the chain, and the contents end at
        the recorded size or at a recognised end mark. */
    ghost predicate Readable(e: DirEntry)
      requires Good()
    {
      var chain := EntryChain(e);
      var room := |chain| * spc * 512;
      && Linked(chain) && Limit(e) < 0x1_0000_0000
      && (e.size > 0 || e.IsDirectory() ==> IsData(e.firstCluster))
      && ((!(e.IsDirectory() && e.size == 0) && e.size <= room) || Ends(chain))
    }

    /** What a readable entry gives the slot that is opened on it. */
    lemma ReadableExtent(e: DirEntry)
      requires Good() && Readable(e)
      ensures AllData(EntryChain(e))
      ensures Limit(e) > 0 ==> EntryChain(e) != [] && IsData(e.firstCluster)
      ensures Limit(e) > 0 ==> At(EntryChain(e), 0, e.firstCluster, 0) && ClusterToLba(e.firstCluster) < |img|
      ensures Limit(e) > 0 ==> 0 / spc < |EntryChain(e)| && ClusterToLba(e.firstCluster) == ChainLba(EntryChain(e), 0)
      ensures Limit(e) == 0 ==> e.size == 0 && !e.IsDirectory()
    {
      var chain := EntryChain(e);
      LinkedData(chain);
      DivModUnique(0, spc, 0, 0);
      if IsData(e.firstCluster) {
        assert chain[0] == e.firstCluster;
        MulMono(1, |chain|, spc);
        DataCluster(e.firstCluster);
        DataClusterLba(e.firstCluster);
      }
    }

    // ----- an independent reading of the contents: cluster after cluster

    function ClusterBytes(c: u32): (s: seq<byte>)
      requires Good() && IsData(c)
      ensures |s| == spc * 512
    {
      DataCluster(c);
      seq(spc * 512, p requires 0 <= p < spc * 512 =>
        QuotientBound(p, 512, spc);
        MulMono(0, c - 2, spc);
        img[dataLba + (c - 2) * spc + p / 512][p % 512])
    }

    lemma OneClusterLess(n: nat)
      requires n > 0
      ensures n * spc * 512 == spc * 512 + (n - 1) * spc * 512
    {
    }

    function Concatenated(chain: seq<u32>): (s: seq<byte>)
      requires Good() && AllData(chain)
      ensures |s| == |chain| * spc * 512
    {
      if chain == [] then []
      else
        OneClusterLess(|chain|);
        ClusterBytes(chain[0]) + Concatenated(chain[1..])
    }

    /** Dropping the first cluster moves every index down by one cluster. */
    lemma IndexAfterFirst(p: nat)
      requires spc > 0 && p >= spc * 512
      ensures (p - spc * 512) / 512 == p / 512 - spc && (p - spc * 512) % 512 == p % 512
      ensures p / 512 - spc >= 0
      ensures (p / 512 - spc) / spc == p / 512 / spc - 1 && (p / 512 - spc) % spc == p / 512 % spc
    {
      var n := p / 512;
      DivMod(n, spc);
      assert n - spc == (n / spc - 1) * spc + n % spc;
      DivModUnique(n - spc, spc, n / spc - 1, n % spc);
    }

    lemma ChainByteFirst(chain: seq<u32>, p: nat)
      requires Good() && p < spc * 512 <= |chain| * spc * 512 && AllData(chain)
      requires chain != []
      ensures ChainByte(chain, p) == ClusterBytes(chain[0])[p]
    {
      DivModUnique(p / 512, spc, 0, p / 512);
    }

    lemma ChainByteRest(chain: seq<u32>, p: nat)
      requires Good() && spc * 512 <= p < |chain| * spc * 512 && AllData(chain)
      requires chain != [] && p - spc * 512 < (|chain| - 1) * spc * 512
      ensures ChainByte(chain, p) == ChainByte(chain[1..], p - spc * 512)
    {
      IndexAfterFirst(p);
      var k := p / 512 / spc;
      QuotientBound(p, 512, |chain| * spc);
      ChainLbaInside(chain, p / 512);
      Remainder(p / 512 - spc, spc);
      assert chain[k] == chain[1..][k - 1];
    }

    /** The flat file is its clusters' bytes one after the other. */
    lemma {:induction false} ConcatenatedAt(chain: seq<u32>, p: nat)
      requires Good() && p < |chain| * spc * 512 && AllData(chain)
      ensures Concatenated(chain)[p] == ChainByte(chain, p)
      decreases |chain|
    {
      OneClusterLess(|chain|);
      if p < spc * 512 {
        ChainByteFirst(chain, p);
      } else {
        ChainByteRest(chain, p);
        ConcatenatedAt(chain[1..], p - spc * 512);
      }
    }

    lemma LimitIsPrefix(e: DirEntry)
      requires Good()
      ensures Content(e) == Concatenated(EntryChain(e))[..Limit(e)]
    {
      var chain := EntryChain(e);
      forall p | 0 <= p < Limit(e)
        ensures Content(e)[p] == Concatenated(chain)[p]
      {
        ConcatenatedAt(chain, p);
      }
    }

    /** The contents are as long as the recorded size says, if the chain has that many bytes; what
        is shorter, or a directory without a size, extends over its whole chain. */
    lemma ContentIsConcatenation(e: DirEntry)
      requires Good()
      ensures var whole := Concatenated(Chain(e.firstCluster, clusters));
        && (e.size <= |whole| && !(e.IsDirectory() && e.size == 0) ==> Content(e) == whole[..e.size] && |Content(e)| == e.size)
        && (e.size > |whole| || (e.IsDirectory() && e.size == 0) ==> Content(e) == whole)
    {
      LimitIsPrefix(e);
    }
  }
}
