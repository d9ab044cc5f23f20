/** From the boot sector to the volume: the regions, the FAT type, and the place of clusters. */
module Layouts {
  import opened Arith
  import opened Bytes
  import opened Disks
  import opened Volumes

  /** What the mount-time computation makes of a boot sector. */
  function VolumeOf(bs: BootSector, img: seq<Sector>): Volume
    requires bs.bytesPerSector > 0 && bs.sectorsPerCluster > 0
  {
    Volume(img, bs.FatType(), bs.reservedSectors, bs.sectorsPerCluster, bs.DataLba(), bs.DataClusters(),
           bs.RootLba(), bs.RootSize())
  }

  /** The regions of a well-formed volume follow each other without gaps, and nothing wraps. */
  lemma Regions(bs: BootSector, sectors: nat)
    requires bs.Valid(sectors)
    ensures bs.FatEnd() == bs.reservedSectors + bs.FatSectors() * bs.fatCount as int
    ensures bs.DataLba() == bs.FatEnd() + bs.RootSectors()
    ensures !bs.IsFat32() ==> bs.RootLba() == bs.FatEnd()
    ensures bs.DataClusters() * bs.sectorsPerCluster as int + bs.DataLba() <= bs.Total() <= sectors
    ensures bs.DataClusters() >= 1
    ensures bs.RootSectors() * 512 >= bs.RootSize()
  {
    var spc: nat := bs.sectorsPerCluster;
    MulMono(0, bs.FatSectors(), bs.fatCount as int);
    Fits32(bs.reservedSectors + bs.FatSectors() * bs.fatCount as int);
    Fits32(bs.FatEnd() + bs.RootSectors());
    var room := bs.Total() - bs.DataLba();
    Fits32(room);
    DivMod(room, spc);
    DivMod(room - spc, spc);
    if room / spc < 1 {
      MulMono(room / spc, 0, spc);
    }
  }

  /** The type that the FAT specification assigns to a cluster count. */
  function SpecifiedType(clusters: nat): nat {
    if clusters < 4085 then 12 else if clusters < 65525 then 16 else 32
  }

  /** The driver tells FAT16 from FAT32 by a field of the boot sector instead of the cluster
      count. It finds the right type if and only if the volume is small enough for FAT12, or
      the field is zero exactly on a volume that is large enough for FAT32. */
  lemma TypeByClusterCount(bs: BootSector)
    requires bs.bytesPerSector > 0 && bs.sectorsPerCluster > 0
    ensures bs.FatType() == SpecifiedType(bs.DataClusters()) <==>
      bs.DataClusters() < 4085 || (bs.sectorsPerFat == 0 <==> bs.DataClusters() >= 65525)
  {
  }

  /** A failing input: 70000 sectors of one cluster each under a 16-bit table that has room for them. */
  lemma LargeFat16()
    ensures var bs := BootSector(512, 1, 1, 1, 16, 0, 274, 70000, 0, 0);
      bs.DataClusters() > 65525 && bs.FatType() == 16 && SpecifiedType(bs.DataClusters()) == 32
      && FatBytes(16, bs.DataClusters() + 2) <= bs.FatSectors() * 512
  {
    var bs := BootSector(512, 1, 1, 1, 16, 0, 274, 70000, 0, 0);
    assert bs.FatEnd() == 275 && bs.RootSectors() == 1;
    assert bs.DataLba() == 276;
  }

  lemma WindowFits(v: Volume, bs: BootSector, c: u32)
    requires bs.Valid(|v.img|) && v == VolumeOf(bs, v.img) && v.IsData(c)
    ensures v.HasWindow(c)
  {
    assert v.FatIndex(c) < FatBytes(v.fatType, v.clusters + 2);
  }

  lemma ClusterFits(v: Volume, bs: BootSector, c: u32)
    requires bs.Valid(|v.img|) && v == VolumeOf(bs, v.img) && v.IsData(c)
    ensures v.ClusterFits(c)
  {
    Regions(bs, |v.img|);
    v.ClusterInside(c);
  }

  /** The root directory of a FAT32 volume starts in one of the data clusters. */
  lemma RootCluster(bs: BootSector, sectors: nat)
    requires bs.Valid(sectors) && bs.IsFat32()
    ensures bs.RootLba() < bs.Total() <= sectors
  {
    Regions(bs, sectors);
    var c, spc: nat := bs.rootDirectoryCluster, bs.sectorsPerCluster;
    Fits32(c - 2);
    MulMono(0, c - 2, spc);
    MulMono(c - 1, bs.DataClusters(), spc);
    assert (c - 1) * spc == (c - 2) * spc + spc;
    Fits32(bs.DataLba() + (c - 2) * spc);
  }

  /** The root directory and the sector behind it are inside the volume. */
  lemma RootFits(bs: BootSector, sectors: nat, n: nat)
    requires bs.Valid(sectors) && n * 512 <= bs.RootSize()
    ensures bs.RootLba() + n < bs.Total() <= sectors
  {
    if bs.IsFat32() {
      RootCluster(bs, sectors);
    } else {
      Regions(bs, sectors);
      DataRegionStarts(bs, sectors);
    }
  }

  lemma DataRegionStarts(bs: BootSector, sectors: nat)
    requires bs.Valid(sectors)
    ensures bs.DataLba() < bs.Total()
  {
    Regions(bs, sectors);
    MulMono(1, bs.DataClusters(), bs.sectorsPerCluster as int);
  }

  /** A well-formed boot sector gives a volume with all that the driver relies on. */
  lemma ValidMounts(bs: BootSector, img: seq<Sector>)
    requires bs.Valid(|img|)
    ensures VolumeOf(bs, img).Good()
  {
    var v := VolumeOf(bs, img);
    forall c: u32 | v.IsData(c)
      ensures v.ClusterFits(c) && v.HasWindow(c)
    {
      ClusterFits(v, bs, c);
      WindowFits(v, bs, c);
    }
    forall n: nat | v.RootHas(n)
      ensures v.rootLba + n < |img|
    {
      RootFits(bs, |img|, n);
    }
    assert v.clusters > 0 by {
      Regions(bs, |img|);
    }
  }

  /** The boot sector of an ordinary 1.44 MB floppy disk is well-formed. */
  lemma FloppyIsValid()
    ensures BootSector(512, 1, 1, 2, 224, 2880, 9, 0, 0, 0).Valid(2880)
    ensures BootSector(512, 1, 1, 2, 224, 2880, 9, 0, 0, 0).FatType() == 12
    ensures BootSector(512, 1, 1, 2, 224, 2880, 9, 0, 0, 0).DataClusters() == 2847
  {
    var bs := BootSector(512, 1, 1, 2, 224, 2880, 9, 0, 0, 0);
    assert bs.FatEnd() == 19 && bs.RootSectors() == 14 && bs.DataLba() == 33;
  }

  /** Different sectors of different clusters lie at different places of the data region. */
  lemma ClustersApart(bs: BootSector, img: seq<Sector>, c: u32, s: nat, c': u32, s': nat)
    requires bs.Valid(|img|)
    requires var v := VolumeOf(bs, img); v.IsData(c) && v.IsData(c') && s < v.spc && s' < v.spc
    ensures var v := VolumeOf(bs, img);
      && v.dataLba <= v.ClusterToLba(c) + s < bs.Total()
      && (v.ClusterToLba(c) + s == v.ClusterToLba(c') + s' ==> c == c' && s == s')
  {
    var v := VolumeOf(bs, img);
    ValidMounts(bs, img);
    Regions(bs, |img|);
    v.ClusterInside(c);
    v.DataClusterLba(c);
    v.DataClusterLba(c');
    if v.ClusterToLba(c) + s == v.ClusterToLba(c') + s' {
      var n := (c - 2) * v.spc + s;
      DivModUnique(n, v.spc, c - 2, s);
      DivModUnique(n, v.spc, c' - 2, s');
    }
  }
}
