/** The FAT read driver: ten file slots, a root pseudo-file and one shared window over the table,
    all updated in place. */
module FatDriver {
  import opened Arith
  import opened Bytes
  import opened Disks
  import opened Layouts
  import opened Volumes

  const MAX_FILE_HANDLES := 10
  const ROOT_DIRECTORY_HANDLE := -1

  /** The buffer agrees with sector `n` of `content`, as far as that goes. */
  ghost predicate Holds(buffer: seq<byte>, content: seq<byte>, n: nat) {
    |buffer| == 512 && forall i: nat :: i < 512 && n * 512 + i < |content| ==> buffer[i] == content[n * 512 + i]
  }

  /** A piece of the sector that offset `p` lies in. */
  lemma HoldsSlice(buffer: seq<byte>, content: seq<byte>, p: nat, take: nat)
    requires Holds(buffer, content, p / 512) && take <= 512 - p % 512 && p + take <= |content|
    ensures buffer[p % 512..p % 512 + take] == content[p..p + take]
  {
    var n, r := p / 512, p % 512;
    var got, expected := buffer[r..r + take], content[p..p + take];
    forall i | 0 <= i < take
      ensures got[i] == expected[i]
    {
      assert buffer[r + i] == content[n * 512 + (r + i)];
      assert expected[i] == content[p + i];
    }
  }

  /** A `FAT_File*`. */
  datatype FilePtr = Null | File(handle: int)

  /** Two memory images differ at most in `lo..hi`. */
  ghost predicate SameOutside(a: seq<byte>, b: seq<byte>, lo: nat, hi: nat) {
    |a| == |b| && forall i :: 0 <= i < |a| && !(lo <= i < hi) ==> a[i] == b[i]
  }

  lemma SameOutsideTwice(a: seq<byte>, b: seq<byte>, c: seq<byte>, lo: nat, mid: nat, hi: nat)
    requires lo <= mid <= hi && SameOutside(a, b, lo, mid) && SameOutside(b, c, mid, hi)
    ensures SameOutside(a, c, lo, hi)
  {
  }

  /** Byte `p + i` of `content` is found at `out[at + i]`. */
  ghost predicate DeliveredAt(out: seq<byte>, at: nat, content: seq<byte>, p: nat, i: nat) {
    at + i < |out| && p + i < |content| && out[at + i] == content[p + i]
  }

  /** `n` bytes of `content`, from index `p` on, are found at `out[at..]`. */
  ghost predicate Delivered(out: seq<byte>, at: nat, n: nat, content: seq<byte>, p: nat) {
    forall i: nat :: i < n ==> DeliveredAt(out, at, content, p, i)
  }

  lemma SliceDelivered(out: seq<byte>, at: nat, n: nat, content: seq<byte>, p: nat)
    requires at + n <= |out| && p + n <= |content| && out[at..at + n] == content[p..p + n]
    ensures Delivered(out, at, n, content, p)
  {
    forall i: nat | i < n
      ensures DeliveredAt(out, at, content, p, i)
    {
      assert out[at..at + n][i] == content[p..p + n][i];
    }
  }

  /** The same, as slices. */
  lemma DeliveredSlice(out: seq<byte>, at: nat, n: nat, content: seq<byte>, p: nat)
    requires Delivered(out, at, n, content, p) && at + n <= |out| && p + n <= |content|
    ensures out[at..at + n] == content[p..p + n]
  {
    var got, expected := out[at..at + n], content[p..p + n];
    forall i | 0 <= i < n
      ensures got[i] == expected[i]
    {
      assert DeliveredAt(out, at, content, p, i);
    }
  }

  /** One file slot: a sector buffer and a cursor. The ghost fields say which bytes the slot
      stands for: the first `limit` bytes stored in `chain`. */
  class FileData {
    const buffer: array<byte>
    var handle: int
    var isDirectory: bool
    var position: u32
    var size: u32
    var isOpen: bool
    var firstCluster: u32
    var currentCluster: u32
    var currentSectorInCluster: nat
    ghost var chain: seq<u32>
    ghost var limit: nat

    constructor ()
      ensures fresh(buffer) && buffer.Length == 512 && !isOpen
    {
      buffer := new byte[512](_ => 0);
      handle, isDirectory, position, size, isOpen := 0, false, 0, 0, false;
      firstCluster, currentCluster, currentSectorInCluster := 0, 0, 0;
      chain, limit := [], 0;
    }

    ghost predicate IsRoot()
      reads this
    {
      handle == ROOT_DIRECTORY_HANDLE
    }

    /** The contents extend to the last byte of a chain that ends in a recognised mark. */
    ghost predicate Whole(v: Volume)
      reads `chain, `limit
    {
      limit == |chain| * v.spc * 512 && v.Ends(chain)
    }

    /** A chain with room for the contents, and a Size field that cuts reads off at or after
        their end. */
    ghost predicate ExtentOk(v: Volume)
      reads `chain, `limit, `position, `size, `isDirectory, `handle
    {
      && handle != ROOT_DIRECTORY_HANDLE
      && v.Linked(chain) && v.AllData(chain) && limit <= |chain| * v.spc * 512
      && position <= limit < 0x1_0000_0000
      && (isDirectory && size == 0 ==> limit > 0 && Whole(v))
      && (!(isDirectory && size == 0) ==> limit <= size && (size == limit || Whole(v)))
    }

    /** The cursor stands at sector `n` of the chain. */
    ghost predicate CursorAt(v: Volume, n: nat)
      requires v.spc > 0
      reads `chain, `currentCluster, `currentSectorInCluster
    {
      v.At(chain, n, currentCluster, currentSectorInCluster)
    }

    /** Position has just moved to a sector boundary; the cursor still has to follow. */
    ghost predicate Pending(v: Volume)
      requires v.Good()
      reads this
    {
      && ExtentOk(v) && position > 0 && position % 512 == 0 && CursorAt(v, position / 512 - 1)
    }

    /** The cursor has followed Position, or run off the end of the chain. */
    ghost predicate Arrived(v: Volume)
      requires v.Good()
      reads this
    {
      && ExtentOk(v) && position > 0 && position % 512 == 0
      && (position < limit ==> CursorAt(v, position / 512))
      && (position == limit && size != limit ==> IsEnd(currentCluster))
    }

    /** What holds of an open slot between calls. */
    ghost predicate SlotOk(v: Volume)
      requires v.Good()
      reads this
    {
      && ExtentOk(v)
      && (position == limit ==> size == limit)
      && (position < limit ==> CursorAt(v, position / 512))
    }

    /** The root pseudo-file: consecutive sectors from `lba` on, cut to `bytes` bytes. */
    ghost predicate RootAt(lba: nat, bytes: nat)
      reads this
    {
      && IsRoot() && isDirectory && firstCluster == lba && size == limit == bytes
      && position <= limit && currentCluster == lba + position / 512
    }

    ghost predicate RootOk(v: Volume)
      reads this
    {
      RootAt(v.rootLba, v.rootSize)
    }

    ghost predicate CursorOk(v: Volume)
      requires v.Good()
      reads this
    {
      if IsRoot() then RootOk(v) else SlotOk(v)
    }

    /** Position has moved to a sector boundary and the cursor has to follow. */
    ghost predicate Due(v: Volume)
      requires v.Good()
      reads this
    {
      if IsRoot() then
        && isDirectory && firstCluster == v.rootLba && size == limit == v.rootSize
        && 0 < position <= limit && position % 512 == 0 && currentCluster == v.rootLba + position / 512 - 1
      else
        Pending(v)
    }

    ghost function Content(v: Volume): (s: seq<byte>)
      requires v.Good() && CursorOk(v)
      reads this
      ensures |s| == limit
    {
      if IsRoot() then v.RootBytes() else v.ChainBytes(chain, limit)
    }

    /** The buffer holds the sector that Position points into. In the root directory that may be
        the sector behind its last one; in a slot there is nothing to hold beyond the contents. */
    ghost predicate BufferOk(v: Volume)
      requires v.Good() && buffer.Length == 512 && CursorOk(v)
      reads this, buffer
    {
      if IsRoot() then
        v.RootHas(position / 512) && buffer[..] == v.RootSector(position / 512)
      else
        position < limit || position % 512 != 0 ==> Holds(buffer[..], Content(v), position / 512)
    }

    /** Either way the bytes of the contents that Position points into are in the buffer. */
    lemma BufferHolds(v: Volume)
      requires v.Good() && buffer.Length == 512 && CursorOk(v) && BufferOk(v)
      requires position < limit || position % 512 != 0
      ensures Holds(buffer[..], Content(v), position / 512)
    {
      if IsRoot() {
        var n := position / 512;
        forall i: nat | i < 512 && n * 512 + i < limit
          ensures buffer[..][i] == Content(v)[n * 512 + i]
        {
          v.SectorOfRoot(n, i);
        }
      }
    }

    /** The file stands for `content`, is at offset `p` of it, and its buffer is up to date. */
    ghost predicate Stands(v: Volume, content: seq<byte>, p: nat)
      requires v.Good()
      reads this, buffer
    {
      buffer.Length == 512 && CursorOk(v) && BufferOk(v) && Content(v) == content && position == p
    }

    lemma SectorLoaded(v: Volume, n: nat)
      requires v.Good() && buffer.Length == 512 && CursorOk(v) && !IsRoot()
      requires position / 512 == n
      requires n / v.spc < |chain| && 0 <= v.ChainLba(chain, n) < |v.img|
      requires buffer[..] == SectorBytes(v.img, v.ChainLba(chain, n), 1)
      ensures BufferOk(v)
    {
      forall i: nat | i < 512 && n * 512 + i < limit
        ensures buffer[..][i] == Content(v)[n * 512 + i]
      {
        v.SectorOfChain(chain, limit, n, i);
      }
    }

    lemma RootLoaded(v: Volume, n: nat)
      requires v.Good() && buffer.Length == 512 && CursorOk(v) && IsRoot()
      requires position / 512 == n && v.rootLba + n < |v.img| && buffer[..] == SectorBytes(v.img, v.rootLba + n, 1)
      ensures BufferOk(v)
    {
      assert v.RootHas(n);
      OneSector(v.img, v.rootLba + n);
    }
  }

  /** The driver state, `g_Data` and the globals beside it. */
  class Driver {
    const part: Partition
    const root: FileData
    const files: seq<FileData>
    const fatCache: array<byte>
    ghost const Repr: set<object>  // the memory the driver owns, fixed once and for all
    var fatCachePosition: u32
    var boot: BootSector
    var dataSectionLba: u32
    var fatType: nat
    var totalSectors: u32
    var sectorsPerFat: u32
    ghost var v: Volume
    ghost var fatFault: bool  // a refill of the window failed; the code carries on regardless

    constructor (p: Partition)
      ensures Layout() && part == p && fresh(Repr)
      ensures forall f :: f in files ==> !f.isOpen
    {
      part := p;
      var slots: seq<FileData> := [];
      ghost var owned: set<object> := {};
      while |slots| < MAX_FILE_HANDLES
        invariant |slots| <= MAX_FILE_HANDLES
        invariant forall f :: f in slots ==> fresh(f) && fresh(f.buffer) && f.buffer.Length == 512 && !f.isOpen
        invariant fresh(owned) && forall f :: f in slots ==> f in owned && f.buffer in owned
        invariant forall i, j :: 0 <= i < j < |slots| ==> slots[i] != slots[j] && slots[i].buffer != slots[j].buffer
      {
        var f := new FileData();
        slots := slots + [f];
        owned := owned + {f, f.buffer};
      }
      files := slots;
      var r := new FileData();
      root := r;
      var cache := new byte[FAT_CACHE_SIZE * 512](_ => 0);
      fatCache := cache;
      Repr := owned + {this, r, r.buffer, cache};
      fatCachePosition, dataSectionLba, fatType, totalSectors, sectorsPerFat := 0, 0, 0, 0, 0;
      boot := BootSector(0, 0, 0, 0, 0, 0, 0, 0, 0, 0);
      v, fatFault := Volume([], 0, 0, 0, 0, 0, 0, 0), false;
    }

    ghost predicate Layout() {
      && {this, root, root.buffer, fatCache} <= Repr
      && |files| == MAX_FILE_HANDLES && root !in files
      && (forall i, j :: 0 <= i < j < |files| ==> files[i] != files[j] && files[i].buffer != files[j].buffer)
      && (forall i :: 0 <= i < |files| ==> files[i] in Repr && files[i].buffer in Repr)
      && (forall i :: 0 <= i < |files| ==> files[i].buffer.Length == 512 && files[i].buffer != root.buffer && files[i].buffer != fatCache)
      && root.buffer.Length == 512 && root.buffer != fatCache
      && fatCache.Length == FAT_CACHE_SIZE * 512
    }

    function FileOf(h: int): FileData
      requires |files| == MAX_FILE_HANDLES && -1 <= h < MAX_FILE_HANDLES
    {
      if h == ROOT_DIRECTORY_HANDLE then root else files[h]
    }

    /** The globals computed at mount time describe the volume. */
    ghost predicate Mounted()
      reads `boot, `dataSectionLba, `fatType, `v
    {
      && Layout() && part.Valid() && v.Good() && v.img == part.Image()
      && v.reserved == boot.reservedSectors && v.spc == boot.sectorsPerCluster
      && v.dataLba == dataSectionLba && v.fatType == fatType
    }

    ghost predicate CacheOk()
      requires Mounted()
      reads `boot, `dataSectionLba, `fatType, `v, `fatCachePosition, fatCache
    {
      fatCachePosition == NO_WINDOW || v.HoldsWindow(fatCache[..], fatCachePosition)
    }

    /** Index arithmetic of `FAT_NextCluster`, in 32 bits. */
    function EntryIndex(c: u32): u32
      reads this
    {
      if fatType == 12 then U32(c * 3) / 2 else if fatType == 16 then U32(c * 2) else U32(c * 4)
    }

    lemma EntryIndexExact(c: u32)
      requires v.fatType == fatType && c < MAX_CLUSTERS
      ensures EntryIndex(c) == v.FatIndex(c)
    {
      Fits32(if fatType == 12 then c * 3 else if fatType == 16 then c * 2 else c * 4);
    }

    lemma EntryIndexAligned(c: u32)
      requires fatType != 12
      ensures EntryIndex(c) % (if fatType == 16 then 2 else 4) == 0
    {
      if fatType == 16 {
        WrapTwice(c);
      } else {
        WrapFourTimes(c);
      }
    }

    /** Re-centring of the window. The outcome of the read is not looked at. */
    method Refill(sector: u32)
      requires Mounted() && sector < 0x80_0000
      modifies this`fatCachePosition, this`fatFault, fatCache, part.disk
      ensures fatCachePosition == sector
      ensures old(fatFault) ==> fatFault
      ensures v.reserved + sector + FAT_CACHE_SIZE <= |v.img| ==>
        && (fatFault ==> old(fatFault) || part.disk.failures > old(part.disk.failures))
        && (!fatFault ==> v.HoldsWindow(fatCache[..], sector))
      ensures part.disk.Since(old(part.disk.failures))
    {
      Fits32(boot.reservedSectors + sector);
      var ok := part.ReadSectors(U32(boot.reservedSectors + sector), FAT_CACHE_SIZE, fatCache);
      fatFault := fatFault || !ok;
      fatCachePosition := sector;
    }

    /** Refill unless the window already covers `sector`. A request for a window beyond the end
        of the volume counts as a fault. */
    method MoveWindow(sector: u32)
      requires Mounted() && (!fatFault ==> CacheOk()) && sector < 0x80_0000
      modifies this`fatCachePosition, this`fatFault, fatCache, part.disk
      ensures fatCachePosition == (if old(fatCachePosition) <= sector < old(fatCachePosition) + FAT_CACHE_SIZE
                                   then old(fatCachePosition) else sector)
      ensures var inside := v.reserved + sector + FAT_CACHE_SIZE <= |v.img|;
        && (fatFault ==> old(fatFault) || !inside || part.disk.failures > old(part.disk.failures))
        && (!fatFault ==> !old(fatFault) && inside && CacheOk())
      ensures part.disk.Since(old(part.disk.failures))
    {
      if sector < fatCachePosition || sector >= U32(fatCachePosition + FAT_CACHE_SIZE) {
        Refill(sector);
      }
      fatFault := fatFault || v.reserved + sector + FAT_CACHE_SIZE > |v.img|;
    }

    /** Load, masking, shifting and widening of an entry. */
    method DecodeEntry(c: u32, at: nat) returns (r: u32)
      requires fatCache.Length == 2560 && v.fatType == fatType && (fatType == 12 || fatType == 16 || fatType == 32)
      requires at < 2560 && (fatType == 32 ==> at + 4 <= 2560)
      ensures r == v.Decode(c, v.LoadedWord(fatCache[..], fatCachePosition, at))
    {
      if fatType == 32 {
        return Le32(fatCache[..], at);
      }
      var high: byte := if at == 2559 then fatCachePosition % 0x100 else fatCache[at + 1];
      var word: u16 := fatCache[at] as int + 0x100 * high as int;
      assert word == v.LoadedWord(fatCache[..], fatCachePosition, at);
      if fatType == 12 {
        var raw: u16 := if c % 2 == 0 then word % 0x1000 else word / 16;
        r := if raw >= 0xFF8 then raw as int + 0xFFFF_F000 else raw;
      } else {
        r := if word >= 0xFFF8 then word as int + 0xFFFF_0000 else word;
      }
    }

    /** `FAT_NextCluster`. */
    method NextCluster(c: u32) returns (r: u32)
      requires Mounted() && (!fatFault ==> CacheOk())
      modifies this`fatCachePosition, this`fatFault, fatCache, part.disk
      ensures fatFault ==> old(fatFault) || !v.HasWindow(c) || part.disk.failures > old(part.disk.failures)
      ensures part.disk.Since(old(part.disk.failures))
      ensures !fatFault ==> v.HasWindow(c) && CacheOk() && !old(fatFault)
      ensures !fatFault ==> fatCachePosition == v.WindowAfter(old(fatCachePosition), c)
      ensures !fatFault ==> r == v.CachedNext(fatCachePosition, c)
    {
      var fatIndex := EntryIndex(c);
      if c < MAX_CLUSTERS {
        EntryIndexExact(c);
      }
      MoveWindow(fatIndex / 512);
      fatFault := fatFault || c >= MAX_CLUSTERS;
      assert fatFault || (v.HasWindow(c) && v.InWindow(fatCachePosition, c));
      WindowOffset(fatIndex, fatCachePosition);
      if fatType != 12 {
        EntryIndexAligned(c);
        AlignedOffset(fatIndex, fatCachePosition, if fatType == 16 then 2 else 4);
      }
      var at := fatIndex - fatCachePosition * 512;
      r := DecodeEntry(c, at);
      if !fatFault {
        v.LoadedIsCached(fatCache[..], fatCachePosition, c, at);
      }
    }

    // ----- moving on to the next sector

    /** The root directory is read as consecutive sectors. */
    method AdvanceRoot(f: FileData) returns (more: bool)
      requires Mounted() && f == root
      modifies f`currentCluster, f.buffer, part.disk
      ensures f.currentCluster == U32(old(f.currentCluster) + 1)
      ensures more && f.currentCluster < |v.img| ==> f.buffer[..] == SectorBytes(v.img, f.currentCluster, 1)
      ensures part.disk.Since(old(part.disk.failures))
      ensures f.currentCluster < |v.img| && !more ==> part.disk.failures > old(part.disk.failures)
    {
      f.currentCluster := U32(f.currentCluster + 1);
      more := part.ReadSectors(f.currentCluster, 1, f.buffer);
    }

    /** An entry whose lookup does not depend on the window is followed as the disk says. */
    method FollowLink(c: u32) returns (r: u32)
      requires Mounted() && (!fatFault ==> CacheOk())
      requires !fatFault ==> v.HasWindow(c)
      modifies this`fatCachePosition, this`fatFault, fatCache, part.disk
      ensures fatFault ==> old(fatFault) || part.disk.failures > old(part.disk.failures)
      ensures part.disk.Since(old(part.disk.failures))
      ensures !fatFault ==> !old(fatFault) && CacheOk() && (v.AlwaysRight(c) ==> r == v.Next(c))
    {
      r := NextCluster(c);
      if !fatFault && v.AlwaysRight(c) {
        v.SafeEntry(fatCachePosition, c);
      }
    }

    /** The cursor part of moving on in a chain. */
    method AdvanceCursor(f: FileData)
      requires Mounted() && f in files
      requires !fatFault ==> CacheOk() && f.Pending(v)
      modifies f`currentCluster, f`currentSectorInCluster
      modifies this`fatCachePosition, this`fatFault, fatCache, part.disk
      ensures !fatFault ==> !old(fatFault) && CacheOk() && f.Arrived(v)
      ensures fatFault ==> old(fatFault) || part.disk.failures > old(part.disk.failures)
      ensures part.disk.Since(old(part.disk.failures))
    {
      ghost var n := f.position / 512 - 1;
      ghost var cluster, sector := f.currentCluster, f.currentSectorInCluster;
      f.currentSectorInCluster := f.currentSectorInCluster + 1;
      if f.currentSectorInCluster >= boot.sectorsPerCluster {
        if !fatFault {
          v.StepAcross(f.chain, n, cluster, sector);
        }
        f.currentSectorInCluster := 0;
        var next := FollowLink(f.currentCluster);
        f.currentCluster := next;
      } else if !fatFault {
        v.StepWithin(f.chain, n, cluster, sector);
      }
    }

    function ClusterToLba(c: u32): u32
      reads this
    {
      U32(dataSectionLba + U32(c - 2) * boot.sectorsPerCluster as int)
    }

    /** Read-ahead of the sector the cursor stands at. */
    method LoadSector(f: FileData) returns (ok: bool)
      requires Mounted() && f in files && (!fatFault ==> f.SlotOk(v) && f.position % 512 == 0)
      modifies f.buffer, part.disk
      ensures !fatFault && ok ==> f.BufferOk(v)
      ensures !fatFault && !ok && f.position < f.limit ==> part.disk.failures > old(part.disk.failures)
      ensures part.disk.Since(old(part.disk.failures))
    {
      var lba := U32(ClusterToLba(f.currentCluster) + f.currentSectorInCluster);
      ghost var n := f.position / 512;
      if !fatFault && f.position < f.limit {
        v.AtIsData(f.chain, n, f.currentCluster, f.currentSectorInCluster);
        assert lba == v.ChainLba(f.chain, n) && n / v.spc < |f.chain|;
      }
      ok := part.ReadSectors(lba, 1, f.buffer);
      if !fatFault && ok && f.position < f.limit {
        f.SectorLoaded(v, n);
      }
    }

    /** What a slot goes through when Position reaches a sector boundary: the cursor follows,
        an end mark cuts the file off here, and otherwise the next sector is read ahead. */
    method AdvanceSlot(f: FileData) returns (more: bool)
      requires Mounted() && f in files
      requires !fatFault ==> CacheOk() && f.Pending(v)
      modifies f`size, f`currentCluster, f`currentSectorInCluster, f.buffer
      modifies this`fatCachePosition, this`fatFault, fatCache, part.disk
      ensures !fatFault ==> !old(fatFault) && CacheOk() && f.SlotOk(v)
      ensures !fatFault && (more || part.disk.failures == old(part.disk.failures)) ==> f.BufferOk(v)
      ensures more ==> f.size == old(f.size)
      ensures !fatFault && !more && f.position < f.limit ==> part.disk.failures > old(part.disk.failures)
      ensures fatFault ==> old(fatFault) || part.disk.failures > old(part.disk.failures)
      ensures part.disk.Since(old(part.disk.failures))
    {
      AdvanceCursor(f);
      if !fatFault && f.position < f.limit {
        v.AtIsData(f.chain, f.position / 512, f.currentCluster, f.currentSectorInCluster);
      }
      if f.currentCluster >= END_OF_CHAIN {
        f.size := f.position;
        more := false;
      } else {
        more := LoadSector(f);
      }
    }

    /** Moving on in the root directory, with the conclusion about its buffer. */
    method AdvanceRootBuffer(f: FileData) returns (more: bool)
      requires Mounted() && f == root && f.IsRoot() && (!fatFault ==> f.Due(v))
      modifies f`currentCluster, f.buffer, part.disk
      ensures !fatFault ==> f.CursorOk(v)
      ensures !fatFault && more ==> f.BufferOk(v)
      ensures more ==> f.size == old(f.size)
      ensures !fatFault && !more ==> part.disk.failures > old(part.disk.failures)
      ensures part.disk.Since(old(part.disk.failures))
    {
      ghost var n := f.position / 512;
      if !fatFault {
        assert v.RootHas(n);
        Fits32(f.currentCluster + 1);
      }
      more := AdvanceRoot(f);
      if !fatFault && more {
        f.RootLoaded(v, n);
      }
    }

    /** Either kind of file. */
    method Advance(f: FileData) returns (more: bool)
      requires Mounted() && (f == root || f in files) && (f.IsRoot() <==> f == root)
      requires !fatFault ==> CacheOk() && f.Due(v)
      modifies f`size, f`currentCluster, f`currentSectorInCluster, f.buffer
      modifies this`fatCachePosition, this`fatFault, fatCache, part.disk
      ensures !fatFault ==> !old(fatFault) && CacheOk() && f.CursorOk(v)
      ensures !fatFault && (more || part.disk.failures == old(part.disk.failures)) ==> f.BufferOk(v)
      ensures more ==> f.size == old(f.size)
      ensures !fatFault && !more && f.position < f.limit ==> part.disk.failures > old(part.disk.failures)
      ensures fatFault ==> old(fatFault) || part.disk.failures > old(part.disk.failures)
      ensures part.disk.Since(old(part.disk.failures))
    {
      if f.handle == ROOT_DIRECTORY_HANDLE {
        more := AdvanceRootBuffer(f);
      } else {
        more := AdvanceSlot(f);
      }
    }

    /** The step of Position after a copy. */
    method MovePosition(f: FileData, take: nat)
      requires Mounted() && f.buffer.Length == 512 && 0 < take <= 512 - f.position % 512
      requires !fatFault ==> f.CursorOk(v) && f.position + take <= f.limit
      modifies f`position
      ensures !fatFault ==> f.position == old(f.position) + take
      ensures !fatFault && take == 512 - old(f.position) % 512 ==> f.Due(v)
      ensures !fatFault && take < 512 - old(f.position) % 512 ==> f.CursorOk(v)
      ensures !fatFault && take < 512 - old(f.position) % 512 && old(f.BufferOk(v)) ==> f.BufferOk(v)
    {
      ghost var p := f.position + take;
      SectorAdvance(f.position, take);
      if !fatFault {
        Fits32(p);
        InsideSector(f, p);
      }
      f.position := U32(f.position + take);
      assert !fatFault ==> f.position == p;
    }

    /** Inside a sector the contents can only end where the recorded size says so. */
    lemma InsideSector(f: FileData, p: nat)
      requires v.Good() && f.CursorOk(v)
      ensures p % 512 != 0 && p == f.limit && !f.IsRoot() ==> f.size == f.limit
    {
      WholeSectors(|f.chain| * v.spc);
    }

    lemma BufferSlice(f: FileData, take: nat)
      requires v.Good() && f.buffer.Length == 512 && f.CursorOk(v) && f.BufferOk(v)
      requires 0 < take <= 512 - f.position % 512 && f.position + take <= f.limit
      ensures f.buffer[f.position % 512..f.position % 512 + take] == f.Content(v)[f.position..f.position + take]
    {
      f.BufferHolds(v);
      HoldsSlice(f.buffer[..], f.Content(v), f.position, take);
      assert f.buffer[..][f.position % 512..f.position % 512 + take] == f.buffer[f.position % 512..f.position % 512 + take];
    }

    /** Copying out of the sector buffer. */
    method CopyOut(f: FileData, take: nat, dst: array<byte>, at: nat, ghost content: seq<byte>)
      requires Mounted() && f.buffer.Length == 512 && f.buffer != dst
      requires 0 < take <= 512 - f.position % 512 && at + take <= dst.Length
      requires !fatFault ==> f.CursorOk(v) && f.position + take <= f.limit && f.Content(v) == content
      modifies dst
      ensures SameOutside(old(dst[..]), dst[..], at, at + take)
      ensures !fatFault && f.BufferOk(v) ==> Delivered(dst[..], at, take, content, f.position)
    {
      var from := f.position % 512;
      ghost var before, piece := dst[..], f.buffer[from..from + take];
      U16Bound(take);
      MemCpy(dst, at, f.buffer, from, take);
      if !fatFault && f.BufferOk(v) {
        BufferSlice(f, take);
        PatchSlice(before, at, piece);
        SliceDelivered(dst[..], at, take, content, f.position);
      }
    }

    // ----- the interface

    ghost predicate SlotsOk()
      requires Mounted()
      reads `boot, `dataSectionLba, `fatType, `v, files
    {
      forall h :: 0 <= h < MAX_FILE_HANDLES && files[h].isOpen ==> files[h].handle == h && files[h].SlotOk(v)
    }

    /** The driver between calls, as long as no refill of the window has failed. */
    ghost predicate Valid()
      reads this, Repr
    {
      Mounted() && !fatFault && CacheOk() && root.RootOk(v) && SlotsOk()
    }

    /** A handle that may be read from: the root (unless the volume has no fixed root), or an
        open slot. */
    ghost predicate IsOpen(h: int)
      requires Mounted()
      reads `boot, `dataSectionLba, `fatType, `v, files
    {
      (h == ROOT_DIRECTORY_HANDLE && v.rootSize > 0) || (0 <= h < MAX_FILE_HANDLES && files[h].isOpen)
    }

    ghost function Content(h: int): seq<byte>
      requires Valid() && IsOpen(h)
      reads this, Repr
    {
      FileOf(h).Content(v)
    }

    /** The buffer behind a handle is up to date. */
    ghost predicate Synced(h: int)
      requires Valid() && IsOpen(h)
      reads this, Repr
    {
      FileOf(h).BufferOk(v)
    }

    /** How many bytes a read may ask of the caller's buffer. */
    ghost function Clip(h: int, byteCount: u32): nat
      requires Valid() && IsOpen(h)
      reads this, Repr
    {
      var f := FileOf(h);
      if !f.isDirectory || f.size != 0 then Min(byteCount, f.size - f.position) else byteCount
    }

    /** One copy, and the step of Position after it. */
    method CopyChunk(f: FileData, take: nat, dst: array<byte>, at: nat, ghost content: seq<byte>)
      requires Mounted() && f.buffer.Length == 512 && f.buffer != dst
      requires 0 < take <= 512 - f.position % 512 && at + take <= dst.Length
      requires !fatFault ==> f.CursorOk(v) && f.position + take <= f.limit && f.Content(v) == content
      modifies f`position, dst
      ensures SameOutside(old(dst[..]), dst[..], at, at + take)
      ensures !fatFault ==> f.position == old(f.position) + take
      ensures !fatFault && take == 512 - old(f.position) % 512 ==> f.Due(v)
      ensures !fatFault && take < 512 - old(f.position) % 512 ==> f.CursorOk(v)
      ensures !fatFault && take < 512 - old(f.position) % 512 && old(f.BufferOk(v)) ==> f.BufferOk(v)
      ensures !fatFault && old(f.BufferOk(v)) ==> Delivered(dst[..], at, take, content, old(f.position))
    {
      CopyOut(f, take, dst, at, content);
      MovePosition(f, take);
    }

    /** One pass of the read loop: copy up to the end of the sector, then move on if it was
        reached. */
    method Chunk(f: FileData, left: nat, dst: array<byte>, at: nat, ghost content: seq<byte>) returns (take: nat, more: bool)
      requires Mounted() && (f == root || f in files) && (f.IsRoot() <==> f == root) && dst !in Repr
      requires 0 < left && at + left <= dst.Length
      requires !fatFault ==> CacheOk() && f.CursorOk(v) && f.position < f.limit && f.Content(v) == content
      requires !fatFault && f.size == f.limit ==> left <= f.limit - f.position
      modifies f`position, f`size, f`currentCluster, f`currentSectorInCluster, f.buffer
      modifies this`fatCachePosition, this`fatFault, fatCache, part.disk, dst
      ensures 0 < take <= left && part.disk.Since(old(part.disk.failures))
      ensures fatFault ==> old(fatFault) || part.disk.failures > old(part.disk.failures)
      ensures SameOutside(old(dst[..]), dst[..], at, at + take)
      ensures !fatFault ==> !old(fatFault) && CacheOk() && f.CursorOk(v) && f.Content(v) == content && f.position == old(f.position) + take
      ensures !fatFault && more && take < left ==> f.position < f.limit
      ensures !fatFault && more && f.size == f.limit ==> left - take <= f.limit - f.position
      ensures !fatFault && !more ==> f.position % 512 == 0
      ensures !fatFault && !more && f.position < f.limit ==> part.disk.failures > old(part.disk.failures)
      ensures !fatFault && old(f.BufferOk(v)) ==> Delivered(dst[..], at, take, content, old(f.position))
      ensures !fatFault && old(f.BufferOk(v)) && (more || part.disk.failures == old(part.disk.failures)) ==> f.BufferOk(v)
    {
      var leftInBuffer := 512 - f.position % 512;
      take := Min(left, leftInBuffer);
      if !fatFault {
        ChunkInside(f, take);
      }
      CopyChunk(f, take, dst, at, content);
      more := true;
      if leftInBuffer == take {
        more := Advance(f);
      }
    }

    /** A chunk never reaches past the contents: they end at Size or at the end of a sector. */
    lemma ChunkInside(f: FileData, take: nat)
      requires v.Good() && f.CursorOk(v) && f.position < f.limit && take <= 512 - f.position % 512
      requires f.size == f.limit ==> take <= f.limit - f.position
      ensures f.position + take <= f.limit
    {
      if f.size != f.limit {
        WholeSectors(|f.chain| * v.spc);
      }
    }

    /** A correct piece after a correct prefix. */
    static lemma DeliveredJoin(before: seq<byte>, out: seq<byte>, at: nat, n: nat, take: nat, content: seq<byte>, p: nat)
      requires SameOutside(before, out, at + n, at + n + take)
      requires Delivered(before, at, n, content, p) && Delivered(out, at + n, take, content, p + n)
      ensures Delivered(out, at, n + take, content, p)
    {
      forall i: nat | i < n + take
        ensures DeliveredAt(out, at, content, p, i)
      {
        assert if i < n then DeliveredAt(before, at, content, p, i) else DeliveredAt(out, at + n, content, p + n, i - n);
      }
    }

    /** What a read has done so far: `n` bytes of the contents from offset `p` on are at `at`. */
    ghost predicate SoFar(f: FileData, dst: array<byte>, at: nat, n: nat, content: seq<byte>, p: nat, start: seq<byte>, synced: bool)
      requires Mounted()
      reads this, fatCache, f, f.buffer, dst
    {
      && SameOutside(start, dst[..], at, at + n)
      && (!fatFault ==>
            && CacheOk() && f.CursorOk(v) && f.Content(v) == content && f.position == p + n
            && (synced ==> Delivered(dst[..], at, n, content, p)))
    }

    /** A failure to load the window is among the failures counted since there were `since` of them. */
    ghost predicate Counted(since: nat)
      reads `fatFault, part.disk
    {
      part.disk.Since(since) && (fatFault ==> part.disk.failures > since)
    }

    /** There is a next byte if another one is wanted, and it is in the buffer. */
    ghost predicate CanGoOn(f: FileData, left: nat, synced: bool)
      requires v.Good() && f.buffer.Length == 512
      reads this, f, f.buffer
    {
      !fatFault ==>
        && f.CursorOk(v) && (left > 0 ==> f.position < f.limit)
        && (f.size == f.limit ==> left <= f.limit - f.position)
        && (synced ==> f.BufferOk(v))
    }

    /** The same pass, seen from a caller that has already been given `n` bytes. */
    method NextChunk(f: FileData, left: nat, dst: array<byte>, at: nat, n: nat, ghost content: seq<byte>,
                     ghost p: nat, ghost start: seq<byte>, ghost synced: bool, ghost since: nat)
      returns (take: nat, more: bool)
      requires Mounted() && (f == root || f in files) && (f.IsRoot() <==> f == root) && dst !in Repr
      requires 0 < left && at + n + left <= dst.Length
      requires SoFar(f, dst, at, n, content, p, start, synced) && CanGoOn(f, left, synced) && Counted(since)
      modifies f`position, f`size, f`currentCluster, f`currentSectorInCluster, f.buffer
      modifies this`fatCachePosition, this`fatFault, fatCache, part.disk, dst
      ensures 0 < take <= left && Counted(since)
      ensures SoFar(f, dst, at, n + take, content, p, start, synced) && (more ==> CanGoOn(f, left - take, synced))
      ensures !fatFault && !more && f.position < f.limit ==> part.disk.failures > since
      ensures !fatFault && synced && part.disk.failures == since ==> f.BufferOk(v)
    {
      ghost var before := dst[..];
      take, more := Chunk(f, left, dst, at + n, content);
      SameOutsideTwice(start, before, dst[..], at, at + n, at + n + take);
      if !fatFault && synced {
        DeliveredJoin(before, dst[..], at, n, take, content, p);
      }
    }

    /** The loop of `FAT_Read`, on one file. */
    method ReadBytes(f: FileData, count: nat, dst: array<byte>, at: nat, ghost content: seq<byte>, ghost p: nat,
                     ghost start: seq<byte>, ghost synced: bool)
      returns (n: nat)
      requires Mounted() && (f == root || f in files) && (f.IsRoot() <==> f == root) && dst !in Repr
      requires at + count <= dst.Length && !fatFault && CacheOk() && f.CursorOk(v) && f.Content(v) == content
      requires p == f.position && start == dst[..] && (synced <==> f.BufferOk(v))
      requires if f.size == f.limit then count <= f.limit - f.position else f.position < f.limit
      modifies f`position, f`size, f`currentCluster, f`currentSectorInCluster, f.buffer
      modifies this`fatCachePosition, this`fatFault, fatCache, part.disk, dst
      ensures n <= count && Counted(old(part.disk.failures))
      ensures SoFar(f, dst, at, n, content, p, start, synced)
      ensures !fatFault && part.disk.failures == old(part.disk.failures) ==> n == Min(count, f.limit - p)
      ensures !fatFault && synced && part.disk.failures == old(part.disk.failures) ==> f.BufferOk(v)
    {
      ghost var since := part.disk.failures;
      n := 0;
      var left := count;
      while left > 0
        invariant 0 <= left && n + left == count && Counted(since)
        invariant SoFar(f, dst, at, n, content, p, start, synced) && CanGoOn(f, left, synced)
        decreases left
      {
        var take, more := NextChunk(f, left, dst, at, n, content, p, start, synced, since);
        n := n + take;
        left := left - take;
        if !more {
          break;
        }
      }
    }

    /** `FAT_Read`: `n` bytes of the file, from Position on, land at `dst[at..]`. */
    method Read(h: int, byteCount: u32, dst: array<byte>, at: nat) returns (n: nat)
      requires Valid() && IsOpen(h) && dst !in Repr
      requires at + Clip(h, byteCount) <= dst.Length
      modifies FileOf(h)`position, FileOf(h)`size, FileOf(h)`currentCluster, FileOf(h)`currentSectorInCluster
      modifies FileOf(h).buffer, this`fatCachePosition, this`fatFault, fatCache, part.disk, dst
      ensures part.disk.Since(old(part.disk.failures))
      ensures fatFault ==> part.disk.failures > old(part.disk.failures)
      ensures n <= old(Clip(h, byteCount))
      ensures SameOutside(old(dst[..]), dst[..], at, at + n)
      ensures !fatFault ==> Valid() && IsOpen(h) && Content(h) == old(Content(h))
      ensures var f := FileOf(h); var want := Min(byteCount, |old(Content(h))| - old(f.position));
        !fatFault ==>
          && f.position == old(f.position) + n && n <= want
          && (part.disk.failures == old(part.disk.failures) ==> n == want)
          && (old(Synced(h)) ==> Delivered(dst[..], at, n, old(Content(h)), old(f.position)))
          && (old(Synced(h)) && part.disk.failures == old(part.disk.failures) ==> Synced(h))
    {
      var f := FileOf(h);
      var count: nat := byteCount;
      if !f.isDirectory || f.size != 0 {
        count := Min(count, f.size - f.position);
      }
      n := ReadBytes(f, count, dst, at, f.Content(v), f.position, dst[..], f.BufferOk(v));
    }

    ghost function OpenSet(): set<int>
      requires |files| == MAX_FILE_HANDLES
      reads files`isOpen
    {
      set h | 0 <= h < MAX_FILE_HANDLES && files[h].isOpen
    }

    /** The search of `FAT_OpenEntry` for a slot. */
    method FreeSlot() returns (handle: int)
      requires |files| == MAX_FILE_HANDLES
      ensures -1 <= handle < MAX_FILE_HANDLES
      ensures handle >= 0 ==> handle !in OpenSet() && forall h :: 0 <= h < handle ==> h in OpenSet()
      ensures handle < 0 ==> forall h :: 0 <= h < MAX_FILE_HANDLES ==> h in OpenSet()
    {
      handle := -1;
      var i := 0;
      while i < MAX_FILE_HANDLES && handle < 0
        invariant 0 <= i <= MAX_FILE_HANDLES && -1 <= handle < i
        invariant handle < 0 ==> forall h :: 0 <= h < i ==> h in OpenSet()
        invariant handle >= 0 ==> handle !in OpenSet() && forall h :: 0 <= h < handle ==> h in OpenSet()
      {
        if !files[i].isOpen {
          handle := i;
        }
        i := i + 1;
      }
    }

    /** The fields of a slot about to be opened. */
    method SetUp(fd: FileData, handle: nat, e: DirEntry)
      requires v.Good() && v.Readable(e)
      modifies fd
      ensures fd.handle == handle && fd.SlotOk(v) && fd.position == 0 && !fd.isOpen
      ensures fd.isDirectory == e.IsDirectory() && fd.chain == v.EntryChain(e) && fd.limit == v.Limit(e)
      ensures fd.currentCluster == e.firstCluster
    {
      v.ReadableExtent(e);
      fd.handle := handle;
      fd.isDirectory := e.IsDirectory();
      fd.position := 0;
      fd.size := e.size;
      fd.firstCluster := e.firstCluster;
      fd.currentCluster := fd.firstCluster;
      fd.currentSectorInCluster := 0;
      fd.isOpen := false;
      fd.chain, fd.limit := v.EntryChain(e), v.Limit(e);
    }

    /** Set-up and read-ahead of a closed slot. */
    method OpenSlot(fd: FileData, handle: nat, e: DirEntry) returns (ok: bool)
      requires Mounted() && fd in files && v.Readable(e)
      modifies fd, fd.buffer, part.disk
      ensures part.disk.Since(old(part.disk.failures))
      ensures !ok ==> !fd.isOpen
      ensures ok ==>
        && fd.isOpen && fd.handle == handle && fd.SlotOk(v) && fd.Content(v) == v.Content(e)
        && fd.position == 0 && fd.BufferOk(v) && fd.isDirectory == e.IsDirectory()
      ensures v.ClusterToLba(e.firstCluster) < |v.img| && !ok ==> part.disk.failures > old(part.disk.failures)
    {
      SetUp(fd, handle, e);
      var lba := ClusterToLba(fd.currentCluster);
      assert lba == v.ClusterToLba(e.firstCluster);
      ok := part.ReadSectors(lba, 1, fd.buffer);
      if ok {
        FirstSector(fd, e);
        fd.isOpen := true;
      }
    }

    /** The first sector of an entry has been read. */
    lemma FirstSector(fd: FileData, e: DirEntry)
      requires v.Good() && v.Readable(e) && fd.buffer.Length == 512 && fd.SlotOk(v) && fd.position == 0
      requires fd.chain == v.EntryChain(e) && fd.limit == v.Limit(e)
      requires v.ClusterToLba(e.firstCluster) < |v.img| ==>
        fd.buffer[..] == SectorBytes(v.img, v.ClusterToLba(e.firstCluster), 1)
      ensures fd.BufferOk(v)
    {
      v.ReadableExtent(e);
      if fd.limit > 0 {
        fd.SectorLoaded(v, 0);
      }
    }

    /** `FAT_OpenEntry`: the lowest free slot, positioned at the start of the entry's contents. */
    method OpenEntry(e: DirEntry) returns (r: FilePtr)
      requires Valid() && v.Readable(e)
      modifies (set f | f in files && !f.isOpen), (set f | f in files && !f.isOpen :: f.buffer), part.disk
      ensures Valid() && part.disk.Since(old(part.disk.failures))
      ensures r.Null? ==> OpenSet() == old(OpenSet())
      ensures r.File? ==>
        && 0 <= r.handle < MAX_FILE_HANDLES && r.handle !in old(OpenSet())
        && (forall h :: 0 <= h < r.handle ==> h in old(OpenSet()))
        && OpenSet() == old(OpenSet()) + {r.handle}
        && Content(r.handle) == v.Content(e) && files[r.handle].position == 0 && Synced(r.handle)
        && files[r.handle].isDirectory == e.IsDirectory()
      ensures (exists h :: 0 <= h < MAX_FILE_HANDLES && h !in old(OpenSet())) && v.ClusterToLba(e.firstCluster) < |v.img| ==>
        r.File? || part.disk.failures > old(part.disk.failures)
    {
      var handle := FreeSlot();
      if handle < 0 {
        return Null;
      }
      var ok := OpenSlot(files[handle], handle, e);
      r := if ok then File(handle) else Null;
    }

    /** Closing the root resets its cursor but not its buffer. */
    method CloseRoot()
      requires Valid()
      modifies root`position, root`currentCluster
      ensures root.RootOk(v) && root.position == 0
    {
      root.position := 0;
      root.currentCluster := root.firstCluster;
    }

    /** `FAT_Close`. The root's buffer keeps the sector the scan had come to, so that the root is
        ready to be read again if and only if that sector looks like the first one. */
    method Close(h: int)
      requires Valid() && IsOpen(h)
      modifies FileOf(h)`position, FileOf(h)`currentCluster, FileOf(h)`isOpen
      ensures Valid()
      ensures h != ROOT_DIRECTORY_HANDLE ==> OpenSet() == old(OpenSet()) - {h}
      ensures h == ROOT_DIRECTORY_HANDLE ==> root.position == 0 && OpenSet() == old(OpenSet())
      ensures h == ROOT_DIRECTORY_HANDLE && old(Synced(h)) ==>
        v.RootHas(old(root.position) / 512) && (Synced(h) <==> v.LikeFirst(old(root.position) / 512))
    {
      if FileOf(h).handle == ROOT_DIRECTORY_HANDLE {
        CloseRoot();
      } else {
        files[h].isOpen := false;
      }
    }

    // ----- mounting

    /** The sizes that come in two widths. */
    method ReadSizes() returns (isFat32: bool)
      modifies `totalSectors, `sectorsPerFat
      ensures totalSectors == boot.Total() && sectorsPerFat == boot.FatSectors() && isFat32 == boot.IsFat32()
    {
      totalSectors := boot.totalSectors;
      if totalSectors == 0 {
        totalSectors := boot.largeSectorCount;
      }
      isFat32 := false;
      sectorsPerFat := boot.sectorsPerFat;
      if sectorsPerFat == 0 {
        isFat32 := true;
        sectorsPerFat := boot.sectorsPerFat32;
      }
    }

    /** The globals that `FAT_Initialize` computes, in 32-bit arithmetic. */
    method ComputeLayout(isFat32: bool) returns (rootDirLba: u32)
      requires boot.bytesPerSector > 0 && isFat32 == boot.IsFat32() && sectorsPerFat == boot.FatSectors()
      modifies `dataSectionLba
      ensures rootDirLba == boot.RootLba() && dataSectionLba == boot.DataLba()
    {
      if isFat32 {
        dataSectionLba := U32(boot.reservedSectors + sectorsPerFat * boot.fatCount as int);
        rootDirLba := ClusterToLba(boot.rootDirectoryCluster);
      } else {
        rootDirLba := U32(boot.reservedSectors + sectorsPerFat * boot.fatCount as int);
        var rootDirSize: nat := DIRECTORY_ENTRY_SIZE * boot.dirEntryCount;
        var rootDirSectors: nat := (rootDirSize + boot.bytesPerSector - 1) / boot.bytesPerSector;
        dataSectionLba := U32(rootDirLba + rootDirSectors);
      }
    }

    /** `FAT_Detect`. */
    method Detect()
      requires boot.bytesPerSector > 0 && boot.sectorsPerCluster > 0
      requires totalSectors == boot.Total() && dataSectionLba == boot.DataLba()
      modifies `fatType
      ensures fatType == boot.FatType()
    {
      var dataClusters: u32 := U32(totalSectors - dataSectionLba) / boot.sectorsPerCluster;
      if dataClusters < 0xFF5 {
        fatType := 12;
      } else if boot.sectorsPerFat != 0 {
        fatType := 16;
      } else {
        fatType := 32;
      }
    }

    /** The root pseudo-file. */
    method SetUpRoot(rootDirLba: u32)
      modifies root
      ensures root.RootAt(rootDirLba, boot.RootSize()) && root.position == 0
    {
      root.handle := ROOT_DIRECTORY_HANDLE;
      root.isDirectory := true;
      root.position := 0;
      root.size := DIRECTORY_ENTRY_SIZE * boot.dirEntryCount;
      root.isOpen := true;
      root.firstCluster := rootDirLba;
      root.currentCluster := rootDirLba;
      root.currentSectorInCluster := 0;
      root.chain, root.limit := [], DIRECTORY_ENTRY_SIZE * boot.dirEntryCount;
    }

    /** The boot sector, read into a buffer and taken apart. */
    method ReadBootSector() returns (ok: bool)
      requires part.Valid() && part.size > 0
      modifies `boot, part.disk
      ensures part.disk.Since(old(part.disk.failures)) && (!ok ==> part.disk.failures > old(part.disk.failures))
      ensures ok ==> boot == ParseBootSector(part.Image()[0])
    {
      var bytes := new byte[512](_ => 0);
      ok := part.ReadSectors(0, 1, bytes);
      if ok {
        OneSector(part.Image(), 0);
        boot := ParseBootSector(bytes[..]);
      }
    }

    /** A mounted volume, all slots closed, and the root directory at its start. */
    ghost predicate JustMounted(bs: BootSector)
      reads this, Repr
    {
      && Valid() && bs.Valid(part.size) && v == VolumeOf(bs, part.Image())
      && OpenSet() == {} && root.position == 0
      && (v.rootSize > 0 ==> Synced(ROOT_DIRECTORY_HANDLE))
    }

    /** `FAT_Initialize`. */
    method Initialize() returns (ok: bool)
      requires Layout() && part.Valid() && part.size > 0
      requires var bs := ParseBootSector(part.Image()[0]); bs.bytesPerSector > 0 && bs.sectorsPerCluster > 0
      modifies this, root, root.buffer, files, part.disk
      ensures part.disk.Since(old(part.disk.failures))
      ensures ParseBootSector(part.Image()[0]).Valid(part.size) && !ok ==> part.disk.failures > old(part.disk.failures)
      ensures var bs := ParseBootSector(part.Image()[0]); ok && bs.Valid(part.size) ==> JustMounted(bs)
    {
      ok := ReadBootSector();
      if ok {
        fatCachePosition := NO_WINDOW;
        fatFault := false;
        var isFat32 := ReadSizes();
        var rootDirLba := ComputeLayout(isFat32);
        SetUpRoot(rootDirLba);
        if boot.Valid(part.size) {
          FirstRootSector();
        }
        ok := part.ReadSectors(rootDirLba, 1, root.buffer);
      }
      if ok {
        FinishMount();
      }
    }

    /** The end of `FAT_Initialize`, with everything read. */
    method FinishMount()
      requires Layout() && part.Valid() && boot.bytesPerSector > 0 && boot.sectorsPerCluster > 0
      requires totalSectors == boot.Total() && dataSectionLba == boot.DataLba() && !fatFault && fatCachePosition == NO_WINDOW
      requires root.RootAt(boot.RootLba(), boot.RootSize()) && root.position == 0
      requires boot.Valid(part.size) ==>
        boot.RootLba() < part.size && root.buffer[..] == SectorBytes(part.Image(), boot.RootLba(), 1)
      modifies `fatType, `v, files
      ensures boot.Valid(part.size) ==> JustMounted(boot)
    {
      Detect();
      CloseAll();
      v := VolumeOf(boot, part.Image());
      if boot.Valid(part.size) {
        MountedIsValid();
      }
    }

    lemma MountedIsValid()
      requires Layout() && part.Valid() && boot.Valid(part.size) && v == VolumeOf(boot, part.Image())
      requires dataSectionLba == boot.DataLba() && fatType == boot.FatType() && !fatFault && fatCachePosition == NO_WINDOW
      requires root.RootAt(boot.RootLba(), boot.RootSize()) && root.position == 0
      requires forall h :: 0 <= h < MAX_FILE_HANDLES ==> !files[h].isOpen
      requires boot.RootLba() < part.size && root.buffer[..] == SectorBytes(part.Image(), boot.RootLba(), 1)
      ensures JustMounted(boot)
    {
      ValidMounts(boot, part.Image());
      root.RootLoaded(v, 0);
    }

    lemma FirstRootSector()
      requires part.Valid() && boot.Valid(part.size)
      ensures boot.RootLba() < part.size
    {
      RootFits(boot, part.size, 0);
    }

    method CloseAll()
      requires Layout()
      modifies files
      ensures OpenSet() == {} && forall h :: 0 <= h < MAX_FILE_HANDLES ==> !files[h].isOpen
    {
      var i := 0;
      while i < MAX_FILE_HANDLES
        invariant 0 <= i <= MAX_FILE_HANDLES
        invariant forall j :: 0 <= j < i ==> !files[j].isOpen
      {
        files[i].isOpen := false;
        i := i + 1;
      }
    }
  }
}
