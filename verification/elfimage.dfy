/** Executables as a linker writes them, and the memory image that loading one leaves behind. */
module ElfImages {
  import opened Arith
  import opened Bytes
  import opened ElfLoader
  import opened FatDriver
  import opened FileAccess
  import opened PathLookup
  import opened Volumes

  // ----- the file, field by field

  datatype ProgramHeader = ProgramHeader(
    kind: u32, offset: u32, vaddr: u32, paddr: u32, filesz: u32, memsz: u32, flags: u32, align: u32)
  {
    function Bytes(): (s: seq<byte>)
      ensures |s| == 32
    {
      Long(kind) + Long(offset) + Long(vaddr) + Long(paddr) + Long(filesz) + Long(memsz) + Long(flags) + Long(align)
    }

    predicate IsLoad() { kind == 1 }

    /** The addresses that the segment takes up. */
    predicate Covers(a: int) { IsLoad() && (vaddr <= a < vaddr + filesz || vaddr <= a < vaddr + memsz) }
  }

  datatype Executable = Executable(
    entry: u32, phoff: u32, shoff: u32, flags: u32, phentsize: u16, headers: seq<ProgramHeader>, sections: seq<byte>)
  {
    predicate Valid() { |headers| < 0x1_0000 && |sections| == 6 }

    /** A 32-bit little-endian x86 executable. */
    function HeaderBytes(): (s: seq<byte>)
      requires Valid()
      ensures |s| == 52
    {
      [0x7F, 0x45, 0x4C, 0x46, 1, 1, 1, 0] + Zeros(8) + Word(2) + Word(3) + Long(1)
      + Long(entry) + Long(phoff) + Long(shoff) + Long(flags) + Word(52) + Word(phentsize) + Word(|headers|) + sections
    }

    /** Program header `i` is in its place of the table. */
    ghost predicate EntryWritten(file: seq<byte>, i: nat)
      requires i < |headers|
    {
      && phoff + i * phentsize as int + 32 <= |file|
      && file[phoff + i * phentsize as int..phoff + i * phentsize as int + 32] == headers[i].Bytes()
    }

    ghost predicate Written(file: seq<byte>) {
      && Valid() && |file| >= 52 && file[..52] == HeaderBytes() && phoff + |headers| * phentsize as int <= |file|
      && forall i :: 0 <= i < |headers| ==> EntryWritten(file, i)
    }
  }

  lemma LoaderFields(x: Executable)
    requires x.Valid()
    ensures var h := HeaderOf(x.HeaderBytes());
      h.entry == x.entry && h.tableOffset == x.phoff && h.entrySize == x.phentsize && h.entries == |x.headers|
  {
    var b := x.HeaderBytes();
    assert b[24..28] == Long(x.entry) && b[28..32] == Long(x.phoff);
    assert b[42..44] == Word(x.phentsize) && b[44..46] == Word(|x.headers|);
    LongAt(b, 24, x.entry);
    LongAt(b, 28, x.phoff);
    WordAt(b, 42, x.phentsize);
    WordAt(b, 44, |x.headers|);
  }

  lemma ValidFields(x: Executable)
    requires x.Valid()
    ensures ValidHeader(x.HeaderBytes())
  {
    var b := x.HeaderBytes();
    assert b[16..18] == Word(2) && b[18..20] == Word(3) && b[20..24] == Long(1);
    WordAt(b, 16, 2);
    WordAt(b, 18, 3);
    LongAt(b, 20, 1);
    assert b[..4] == ELF_MAGIC;
  }

  /** Parsing gives back what was written, and the header is a valid one. */
  lemma HeaderRoundTrip(x: Executable, file: seq<byte>)
    requires x.Written(file)
    ensures HeaderOf(file).entry == x.entry && HeaderOf(file).tableOffset == x.phoff
    ensures HeaderOf(file).entrySize == x.phentsize && HeaderOf(file).entries == |x.headers|
    ensures ValidHeader(file)
  {
    LoaderFields(x);
    ValidFields(x);
    HeaderOfPrefix(file);
    assert file[..52][..4] == file[..4];
  }

  lemma EntryRoundTrip(p: ProgramHeader, s: seq<byte>, at: nat)
    requires at + 32 <= |s| && s[at..at + 32] == p.Bytes()
    ensures var g := SegmentAt(s, at);
      g.kind == p.kind && g.offset == p.offset && g.vaddr == p.vaddr && g.fileSize == p.filesz && g.memSize == p.memsz
  {
    var b := s[at..at + 32];
    assert b[..4] == Long(p.kind) && b[4..8] == Long(p.offset) && b[8..12] == Long(p.vaddr);
    assert b[16..20] == Long(p.filesz) && b[20..24] == Long(p.memsz);
    LongAt(b, 0, p.kind);
    LongAt(b, 4, p.offset);
    LongAt(b, 8, p.vaddr);
    LongAt(b, 16, p.filesz);
    LongAt(b, 20, p.memsz);
    assert SegmentAt(b, 0) == SegmentAt(s, at);
  }

  /** A segment as the loader sees it has the fields of its program header. */
  ghost predicate Same(g: Segment, p: ProgramHeader) {
    g.kind == p.kind && g.offset == p.offset && g.vaddr == p.vaddr && g.fileSize == p.filesz && g.memSize == p.memsz
  }

  lemma TableRoundTrip(x: Executable, file: seq<byte>, i: nat)
    requires x.Written(file) && HasTable(file) && TableFits(HeaderOf(file)) && i < |x.headers|
    ensures |Segments(file)| == |x.headers| && Same(Segments(file)[i], x.headers[i])
  {
    HeaderRoundTrip(x, file);
    assert x.EntryWritten(file, i);
    var h, table, at := HeaderOf(file), TableOf(file), Offset(x.phentsize, i);
    EntryInside(h.entrySize, h.entries, i);
    OffsetIsProduct(x.phentsize, i);
    SliceOfSlice(file, table, h.tableOffset, at);
    EntryRoundTrip(x.headers[i], table, at);
    assert Segments(file)[i] == SegmentAt(table, at);
  }

  lemma SliceOfSlice(s: seq<byte>, t: seq<byte>, lo: nat, at: nat)
    requires lo + |t| <= |s| && t == s[lo..lo + |t|] && at + 32 <= |t|
    ensures t[at..at + 32] == s[lo + at..lo + at + 32]
  {
    var got, expected := t[at..at + 32], s[lo + at..lo + at + 32];
    assert forall k :: 0 <= k < 32 ==> got[k] == t[at + k] && expected[k] == s[lo + at + k];
  }

  // ----- the memory image

  predicate Hits(g: Segment, a: nat) { g.kind == 1 && g.vaddr <= a < g.vaddr + Target(g) }

  /** An address that no entry takes up keeps its byte. */
  lemma {:induction false} NotHit(m: seq<byte>, segments: seq<Segment>, file: seq<byte>, a: nat)
    requires AllOk(segments, |m|, |file|) && a < |m| && forall k :: 0 <= k < |segments| ==> !Hits(segments[k], a)
    ensures IntendedAll(m, segments, file)[a] == m[a]
    decreases |segments|
  {
    if segments != [] {
      var n := |segments| - 1;
      assert SegmentOk(segments[n], |m|) && InFile(segments[n], |file|) && !Hits(segments[n], a);
      assert forall k :: 0 <= k < n ==> segments[..n][k] == segments[k];
      NotHit(m, segments[..n], file, a);
    }
  }

  /** The last entry that takes up an address decides: a byte of the file, or zero behind them. */
  lemma {:induction false} LastHit(m: seq<byte>, segments: seq<Segment>, file: seq<byte>, a: nat, k: nat)
    requires AllOk(segments, |m|, |file|) && a < |m| && k < |segments| && Hits(segments[k], a)
    requires forall j :: k < j < |segments| ==> !Hits(segments[j], a)
    ensures var g := segments[k];
      && 0 <= g.offset + g.fileSize <= |file|
      && IntendedAll(m, segments, file)[a] == if a - g.vaddr < g.fileSize then file[g.offset + (a - g.vaddr)] else 0
    decreases |segments|
  {
    var n := |segments| - 1;
    assert SegmentOk(segments[n], |m|) && InFile(segments[n], |file|);
    if k < n {
      LastHit(m, segments[..n], file, a, k);
    }
  }

  /** Entry `i` is the last one that takes up address `a`. */
  ghost predicate Decides(x: Executable, i: nat, a: int) {
    && i < |x.headers| && x.headers[i].Covers(a)
    && forall j :: i < j < |x.headers| ==> !x.headers[j].Covers(a)
  }

  /** Memory is the image that the program headers describe: the bytes of the file, zeros behind
      them, and what was there before everywhere else but in the loader's buffers. */
  ghost predicate ImageAt(x: Executable, file: seq<byte>, m: seq<byte>, mem: seq<byte>, a: nat)
    requires |mem| == |m|
  {
    a < |m| ==>
      && (forall i: nat :: Decides(x, i, a) ==>
            var p := x.headers[i];
            if a < p.vaddr + p.filesz then p.offset + (a - p.vaddr) < |file| && mem[a] == file[p.offset + (a - p.vaddr)]
            else mem[a] == 0)
      && ((forall i: nat :: !Decides(x, i, a)) && !(0x3_0000 <= a < 0x5_0000) ==> mem[a] == m[a])
  }

  ghost predicate Image(x: Executable, file: seq<byte>, m: seq<byte>, mem: seq<byte>) {
    |mem| == |m| && forall a: nat :: ImageAt(x, file, m, mem, a)
  }

  /** All segments are of ordinary size. */
  ghost predicate AllSmall(x: Executable) {
    forall i :: 0 <= i < |x.headers| && x.headers[i].IsLoad() ==> x.headers[i].filesz < 0x1_0000 && x.headers[i].memsz < 0x1_0000
  }

  lemma SomeDecides(x: Executable, a: nat, i: nat) returns (k: nat)
    requires i < |x.headers| && x.headers[i].Covers(a)
    ensures Decides(x, k, a)
  {
    k := |x.headers| - 1;
    while !x.headers[k].Covers(a)
      invariant i <= k < |x.headers| && forall j :: k < j < |x.headers| ==> !x.headers[j].Covers(a)
      decreases k
    {
      k := k - 1;
    }
  }

  /** What loading an executable with small segments leaves in memory. */
  lemma LoadedImage(x: Executable, file: seq<byte>, m: seq<byte>, mem: seq<byte>)
    requires x.Written(file) && AllSmall(x) && HasTable(file) && TableFits(HeaderOf(file))
    requires Built(mem, m, Segments(file), file)
    ensures Image(x, file, m, mem)
  {
    var segments := Segments(file);
    forall i | 0 <= i < |x.headers|
      ensures |segments| == |x.headers| && Same(segments[i], x.headers[i])
    {
      TableRoundTrip(x, file, i);
    }
    HeaderRoundTrip(x, file);
    LoadAllIsIntended(m, segments, file);
    forall a: nat | a < |m|
      ensures ImageAt(x, file, m, mem, a)
    {
      ByteOfImage(x, segments, file, m, mem, a);
    }
  }

  lemma ByteOfImage(x: Executable, segments: seq<Segment>, file: seq<byte>, m: seq<byte>, mem: seq<byte>, a: nat)
    requires |segments| == |x.headers| && forall i :: 0 <= i < |segments| ==> Same(segments[i], x.headers[i])
    requires |mem| == |m| && AllOk(segments, |m|, |file|) && Buffers(IntendedAll(m, segments, file), mem) && a < |m|
    ensures ImageAt(x, file, m, mem, a)
  {
    forall i: nat | Decides(x, i, a)
      ensures var p := x.headers[i];
        if a < p.vaddr + p.filesz then p.offset + (a - p.vaddr) < |file| && mem[a] == file[p.offset + (a - p.vaddr)]
        else mem[a] == 0
    {
      assert Hits(segments[i], a) && SegmentOk(segments[i], |m|);
      LastHit(m, segments, file, a, i);
    }
    if forall i: nat :: !Decides(x, i, a) {
      forall k | 0 <= k < |segments|
        ensures !Hits(segments[k], a)
      {
        if Hits(segments[k], a) {
          var d := SomeDecides(x, a, k);
        }
      }
      NotHit(m, segments, file, a);
    }
  }

  /** Loading an executable: memory becomes its image, and its entry point is returned. */
  method LoadExecutable(d: Driver, path: seq<byte>, mem: array<byte>, ghost e: DirEntry, ghost open: set<int>, ghost x: Executable)
    returns (r: ElfResult)
    requires Ready(d, path, e, open) && d.part.disk.Reliable() && mem !in d.Repr
    requires Benign(d.v.Content(e), mem.Length) && x.Written(d.v.Content(e)) && AllSmall(x)
    modifies d.root, d.root.buffer, d`fatCachePosition, d`fatFault, d.fatCache, d.part.disk, mem
    modifies (set f | f in d.files && !f.isOpen), (set f | f in d.files && !f.isOpen :: f.buffer)
    ensures r.Loaded? <==> forall p :: p in x.headers && p.IsLoad() ==> p.offset + p.filesz <= |d.v.Content(e)|
    ensures r.Loaded? ==> r.entry == x.entry && Image(x, d.v.Content(e), old(mem[..]), mem[..])
  {
    ghost var file, m := d.v.Content(e), mem[..];
    r := Read(d, path, mem, e, open);
    WrittenLoadable(x, file, mem.Length);
    if r.Loaded? {
      HeaderRoundTrip(x, file);
      LoadedImage(x, file, m, mem[..]);
    }
  }

  /** Such a file can be loaded exactly if all segments are inside it. */
  lemma WrittenLoadable(x: Executable, file: seq<byte>, memory: nat)
    requires x.Written(file) && Benign(file, memory)
    ensures Loadable(file) <==> forall p :: p in x.headers && p.IsLoad() ==> p.offset + p.filesz <= |file|
  {
    HeaderRoundTrip(x, file);
    OffsetIsProduct(x.phentsize, |x.headers|);
    assert HasTable(file);
    var segments := Segments(file);
    forall i | 0 <= i < |x.headers|
      ensures |segments| == |x.headers| && Same(segments[i], x.headers[i])
    {
      TableRoundTrip(x, file, i);
    }
    InFileAlike(x, segments, |file|);
  }

  lemma InFileAlike(x: Executable, segments: seq<Segment>, length: nat)
    requires |segments| == |x.headers| && forall i :: 0 <= i < |segments| ==> Same(segments[i], x.headers[i])
    ensures AllInFile(segments, length) <==> forall p :: p in x.headers && p.IsLoad() ==> p.offset + p.filesz <= length
  {
    if AllInFile(segments, length) {
      forall p | p in x.headers && p.IsLoad()
        ensures p.offset + p.filesz <= length
      {
        var i :| 0 <= i < |x.headers| && x.headers[i] == p;
        assert InFile(segments[i], length);
      }
    } else {
      var i :| 0 <= i < |segments| && !InFile(segments[i], length);
      assert x.headers[i] in x.headers;
    }
  }
}
