/** Sector addressing: LBA to cylinder/head/sector, the register packing of the BIOS call,
    the retry loop, and the partition offset on top of it. */
module Disks {
  import opened Arith
  import opened Bytes

  type Sector = s: seq<byte> | |s| == 512 witness seq(512, _ => 0)

  /** Byte `j` of the sectors from `lba` on. */
  function SectorByte(img: seq<Sector>, lba: nat, j: nat): byte
    requires lba + j / 512 < |img|
  {
    img[lba + j / 512][j % 512]
  }

  /** The bytes of `count` sectors. */
  function SectorBytes(img: seq<Sector>, lba: nat, count: nat): (s: seq<byte>)
    requires lba + count <= |img|
    ensures |s| == 512 * count
  {
    seq(512 * count, j requires 0 <= j < 512 * count => SectorByte(img, lba, j))
  }

  lemma OneSector(img: seq<Sector>, lba: nat)
    requires lba < |img|
    ensures SectorBytes(img, lba, 1) == img[lba]
  {
  }

  datatype Chs = Chs(cylinder: nat, head: nat, sector: nat)

  datatype Registers = Registers(ch: byte, cl: byte, dh: byte)

  datatype Geometry = Geometry(cylinders: nat, heads: nat, sectors: nat) {

    /** The limits of the BIOS interface: 10-bit cylinder, 8-bit head, 6-bit sector. */
    predicate Valid() {
      1 <= cylinders <= 1024 && 1 <= heads <= 256 && 1 <= sectors <= 63
    }

    function Size(): nat { cylinders * heads * sectors }

    predicate Has(a: Chs) {
      a.cylinder < cylinders && a.head < heads && 1 <= a.sector <= sectors
    }

    /** The linear address of a cylinder/head/sector triple. */
    function ToLba(a: Chs): nat
      requires a.sector >= 1
    {
      (a.cylinder * heads + a.head) * sectors + a.sector - 1
    }

    /** Heads and cylinders are counted in whole tracks. */
    function Track(lba: u32): nat
      requires sectors > 0
    {
      lba / sectors
    }

    /** `DISK_LBA2CHS`: the three results are stored in 16-bit variables. */
    function ToChs(lba: u32): Chs
      requires heads > 0 && sectors > 0
    {
      Chs(U16(Track(lba) / heads), U16(Track(lba) % heads), U16(lba % sectors + 1))
    }
  }

  /** The packing of `x86_Disk_Read`: CH takes the low cylinder byte, CL the two next cylinder
      bits above six sector bits, DH the low head byte. */
  function Pack(a: Chs): Registers {
    Registers(a.cylinder % 0x100, (a.cylinder / 0x100 % 4) * 64 + a.sector % 64, a.head % 0x100)
  }

  /** What the BIOS takes those registers to mean. */
  function Unpack(r: Registers): Chs {
    Chs(r.ch + r.cl / 64 * 0x100, r.dh, r.cl % 64)
  }

  /** The first boot stage's own `lba_to_chs`: two 16-bit divisions, then CH := AL,
      CL := sector + (AH << 6), DH := DL. */
  function Stage1Registers(g: Geometry, lba: u16): Registers
    requires g.Valid()
  {
    var ax, dx := g.Track(lba) / g.heads, g.Track(lba) % g.heads;
    Registers(U8(ax), U8(U8(ax / 0x100 * 64) + lba % g.sectors + 1), U8(dx))
  }

  lemma CylinderBound(g: Geometry, lba: u32)
    requires g.Valid() && lba < g.Size()
    ensures g.Track(lba) / g.heads < g.cylinders
  {
    QuotientBound(lba, g.sectors, g.cylinders * g.heads);
    QuotientBound(g.Track(lba), g.heads, g.cylinders);
  }

  lemma Fits16(n: nat)
    requires n < 0x1_0000
    ensures U16(n) == n
  {
  }

  lemma ChsParts(g: Geometry, lba: u32)
    requires g.Valid() && g.Track(lba) / g.heads < g.cylinders
    ensures g.ToChs(lba).cylinder == g.Track(lba) / g.heads
    ensures g.ToChs(lba).head == g.Track(lba) % g.heads
    ensures g.ToChs(lba).sector == lba % g.sectors + 1
  {
    Fits16(g.Track(lba) / g.heads);
    Remainder(g.Track(lba), g.heads);
    Fits16(g.Track(lba) % g.heads);
    Remainder(lba, g.sectors);
    Fits16(lba % g.sectors + 1);
  }

  /** Every LBA of the disk has a triple inside the geometry, from which it is recovered. */
  lemma LbaRoundTrip(g: Geometry, lba: u32)
    requires g.Valid() && lba < g.Size()
    ensures g.Has(g.ToChs(lba)) && g.ToLba(g.ToChs(lba)) == lba
  {
    CylinderBound(g, lba);
    ChsParts(g, lba);
    DivMod(lba, g.sectors);
    DivMod(g.Track(lba), g.heads);
  }

  /** Every triple of the geometry is the image of its linear address: together with
      `LbaRoundTrip`, a bijection. */
  lemma ChsRoundTrip(g: Geometry, a: Chs)
    requires g.Valid() && g.Has(a)
    ensures g.ToLba(a) < g.Size() <= 0xFC_0000 && g.ToChs(g.ToLba(a)) == a
  {
    var tracks := g.cylinders * g.heads;
    var track := a.cylinder * g.heads + a.head;
    BlockBound(a.cylinder, a.head, g.heads, g.cylinders);
    BlockBound(track, a.sector - 1, g.sectors, tracks);
    SizeBound(g);
    DivModUnique(g.ToLba(a), g.sectors, track, a.sector - 1);
    DivModUnique(track, g.heads, a.cylinder, a.head);
  }

  lemma SizeBound(g: Geometry)
    requires g.Valid()
    ensures g.Size() <= 0xFC_0000
  {
    var tracks := g.cylinders * g.heads;
    MulMono(g.cylinders, 1024, g.heads);
    MulMono(tracks, 1024 * 256, g.sectors);
  }

  /** The BIOS is asked for the triple that was meant. */
  lemma RegistersRoundTrip(g: Geometry, a: Chs)
    requires g.Valid() && g.Has(a)
    ensures Unpack(Pack(a)) == a
  {
    var hi := a.cylinder / 0x100;
    assert Pack(a).cl == hi * 64 + a.sector;
    assert Pack(a).cl / 64 == hi && Pack(a).cl % 64 == a.sector;
  }

  /** For the 16-bit addresses the first stage can name, both stages drive the same registers. */
  lemma StagesAgree(g: Geometry, lba: u16)
    requires g.Valid() && lba < g.Size()
    ensures Stage1Registers(g, lba) == Pack(g.ToChs(lba))
  {
    CylinderBound(g, lba);
    ChsParts(g, lba);
    DivMod(lba, g.sectors);
    ShiftedBits(g.Track(lba) / g.heads / 0x100);
  }

  lemma ShiftedBits(hi: nat)
    requires hi < 4
    ensures hi * 64 % 0x100 == hi % 4 * 64
  {
  }

  /** A drive: fixed contents, a geometry, and an oracle that says which BIOS calls fail. */
  class Disk {
    const geometry: Geometry
    const image: seq<Sector>
    const faults: nat -> bool
    var clock: nat
    ghost var failures: nat  // reads of existing sectors that were given up

    constructor (g: Geometry, contents: seq<Sector>, oracle: nat -> bool)
      ensures geometry == g && image == contents && faults == oracle
      ensures clock == 0 && failures == 0
    {
      geometry, image, faults, clock, failures := g, contents, oracle, 0, 0;
    }

    ghost predicate Valid() {
      geometry.Valid() && |image| == geometry.Size()
    }

    ghost predicate Reliable() {
      forall t :: !faults(t)
    }

    /** The failure count has gone up from `n`, or stayed there; a reliable drive adds nothing. */
    ghost predicate Since(n: nat)
      reads this
    {
      failures >= n && (Reliable() ==> failures == n)
    }

    /** Int 13h, function 2. A failed call leaves anything in the buffer. */
    method BiosRead(r: Registers, count: nat, out: array<byte>) returns (ok: bool)
      requires out.Length == 512 * count
      modifies this`clock, out
      ensures clock == old(clock) + 1
      ensures ok <==> !faults(old(clock)) && geometry.Has(Unpack(r)) && geometry.ToLba(Unpack(r)) + count <= |image|
      ensures ok ==> out[..] == SectorBytes(image, geometry.ToLba(Unpack(r)), count)
    {
      ok := !faults(clock);
      clock := clock + 1;
      var a := Unpack(r);
      if !geometry.Has(a) || geometry.ToLba(a) + count > |image| {
        ok := false;
      }
      if ok {
        var first := geometry.ToLba(a);
        forall j | 0 <= j < out.Length {
          out[j] := SectorByte(image, first, j);
        }
      }
    }

    /** `DISK_ReadSectors`: three tries with a reset in between. */
    method ReadSectors(lba: u32, count: nat, out: array<byte>) returns (ok: bool)
      requires Valid() && out.Length == 512 * count && count > 0
      modifies this, out
      ensures lba + count <= |image| ==>
        (ok <==> !(faults(old(clock)) && faults(old(clock) + 1) && faults(old(clock) + 2)))
      ensures ok && lba + count <= |image| ==> out[..] == SectorBytes(image, lba, count)
      ensures failures == old(failures) + if ok || lba + count > |image| then 0 else 1
    {
      var a := geometry.ToChs(lba);
      if lba + count <= |image| {
        LbaRoundTrip(geometry, lba);
        RegistersRoundTrip(geometry, a);
      }
      var i := 0;
      while i < 3
        invariant 0 <= i <= 3 && clock == old(clock) + i && failures == old(failures)
        invariant lba + count <= |image| ==> forall t :: old(clock) <= t < old(clock) + i ==> faults(t)
      {
        ok := BiosRead(Pack(a), count, out);
        if ok {
          return true;
        }
        i := i + 1;
      }
      if lba + count <= |image| {
        failures := failures + 1;
      }
      return false;
    }
  }

  /** A contiguous run of sectors of a drive. */
  class Partition {
    const disk: Disk
    const offset: u32
    const size: u32

    constructor (d: Disk, start: u32, sectors: u32)
      ensures disk == d && offset == start && size == sectors
    {
      disk, offset, size := d, start, sectors;
    }

    ghost predicate Valid() {
      disk.Valid() && offset + size <= |disk.image|
    }

    ghost function Image(): (img: seq<Sector>)
      requires Valid()
      ensures |img| == size
    {
      disk.image[offset..offset + size]
    }

    lemma ImageBytes(lba: nat, count: nat)
      requires Valid() && lba + count <= size
      ensures SectorBytes(disk.image, lba + offset, count) == SectorBytes(Image(), lba, count)
    {
      forall j | 0 <= j < 512 * count
        ensures SectorByte(disk.image, lba + offset, j) == SectorByte(Image(), lba, j)
      {
      }
    }

    /** `Partition_ReadSectors`. */
    method ReadSectors(lba: u32, count: nat, out: array<byte>) returns (ok: bool)
      requires Valid() && out.Length == 512 * count && count > 0
      modifies disk, out
      ensures disk.Since(old(disk.failures))
      ensures lba + count <= size && !ok ==> disk.failures > old(disk.failures)
      ensures ok && lba + count <= size ==> out[..] == SectorBytes(Image(), lba, count)
    {
      SizeBound(disk.geometry);
      if lba + count <= size {
        Fits32(lba + offset);
      }
      ok := disk.ReadSectors(U32(lba + offset), count, out);
      if ok && lba + count <= size {
        ImageBytes(lba, count);
      }
    }
  }
}
