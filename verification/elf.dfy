/** The ELF loader: headers into one buffer, segments through another, into one flat memory. */
module ElfLoader {
  import opened Arith
  import opened Bytes
  import opened FatDriver
  import opened FileAccess
  import opened PathLookup
  import opened Volumes

  const HEADER_BUFFER := 0x3_0000  // MEMORY_ELF_ADDR
  const LOAD_BUFFER := 0x4_0000  // MEMORY_LOAD_KERNEL
  const LOAD_SIZE := 0x1_0000
  const BUFFERS_END := 0x5_0000
  const HEADER_SIZE := 52
  const TYPE_LOAD := 1
  const VALIDATED := 24  // the fields that are validated lie before this offset
  const ELF_MAGIC: seq<byte> := [0x7F, 0x45, 0x4C, 0x46]

  // ----- the specification

  datatype Segment = Segment(kind: u32, offset: u32, vaddr: u32, fileSize: u32, memSize: u32)

  function SegmentAt(table: seq<byte>, at: nat): Segment
    requires at + 32 <= |table|
  {
    Segment(Le32(table, at), Le32(table, at + 4), Le32(table, at + 8), Le32(table, at + 16), Le32(table, at + 20))
  }

  /** The bytes of a 64 KiB-wise copy that really arrive: `memcpy` takes the count of a full chunk
      for zero, so only the last, partial chunk is stored. */
  function Skipped(n: nat): nat { n / LOAD_SIZE * LOAD_SIZE }

  function Target(s: Segment): nat
  {
    if s.fileSize < s.memSize then s.memSize else s.fileSize
  }

  /** The segment stays inside memory and above everything the boot stage uses: its own code, the
      driver's data and the two buffers of the loader lie below BUFFERS_END. */
  predicate Placed(s: Segment, size: nat) {
    BUFFERS_END <= s.vaddr && s.vaddr + Target(s) <= size
  }

  /** The bytes that a copying loop over `size` bytes of the file really stores. */
  function Stored(m: seq<byte>, address: nat, file: seq<byte>, offset: nat, size: nat): (r: seq<byte>)
    requires offset + size <= |file| && address + size <= |m|
    ensures |r| == |m|
  {
    Patch(m, address + Skipped(size), file[offset + Skipped(size)..offset + size])
  }

  /** What the loader does to memory for one segment. */
  function Load(m: seq<byte>, s: Segment, file: seq<byte>): (r: seq<byte>)
    requires Placed(s, |m|) && s.offset + s.fileSize <= |file|
    ensures |r| == |m|
  {
    Stored(Patch(m, s.vaddr, Zeros(U16(s.memSize))), s.vaddr, file, s.offset, s.fileSize)
  }

  /** What the program header asks for: zeros over the memory size, then the file's bytes. */
  function Intended(m: seq<byte>, s: Segment, file: seq<byte>): (r: seq<byte>)
    requires Placed(s, |m|) && s.offset + s.fileSize <= |file|
    ensures |r| == |m|
  {
    Patch(Patch(m, s.vaddr, Zeros(s.memSize)), s.vaddr, file[s.offset..s.offset + s.fileSize])
  }

  /** Both sizes fit the 16-bit counts of `memset` and `memcpy`. */
  predicate Small(s: Segment) { s.fileSize < 0x1_0000 && s.memSize < 0x1_0000 }

  lemma SmallIsIntended(m: seq<byte>, s: Segment, file: seq<byte>)
    requires Placed(s, |m|) && s.offset + s.fileSize <= |file| && Small(s)
    ensures Load(m, s, file) == Intended(m, s, file)
  {
    U16Bound(s.memSize);
    assert Skipped(s.fileSize) == 0;
  }

  /** A memory and a file on which a segment that is not small goes wrong. */
  lemma LargeGoesWrong(s: Segment, size: nat, length: nat)
    requires Placed(s, size) && s.offset + s.fileSize <= length && !Small(s)
    ensures var m, file := seq(size, _ => 1), seq(length, _ => 2);
      Load(m, s, file) != Intended(m, s, file)
  {
    var m: seq<byte>, file: seq<byte> := seq(size, _ => 1), seq(length, _ => 2);
    if s.fileSize >= 0x1_0000 {
      assert Load(m, s, file)[s.vaddr] != 2 && Intended(m, s, file)[s.vaddr] == 2;
    } else {
      var last := s.vaddr + s.memSize - 1;
      assert Intended(m, s, file)[last] == 0 && Load(m, s, file)[last] == 1;
    }
  }

  /** The loader does what the header asks for, whatever is in memory and in the file, if and
      only if both sizes are below 64 KiB. */
  lemma ExactlySmall(s: Segment, size: nat, length: nat)
    requires Placed(s, size) && s.offset + s.fileSize <= length
    ensures Small(s) <==>
      forall m: seq<byte>, file: seq<byte> :: |m| == size && |file| == length ==> Load(m, s, file) == Intended(m, s, file)
  {
    if Small(s) {
      forall m: seq<byte>, file: seq<byte> | |m| == size && |file| == length
        ensures Load(m, s, file) == Intended(m, s, file)
      {
        SmallIsIntended(m, s, file);
      }
    } else {
      LargeGoesWrong(s, size, length);
      var m: seq<byte>, file: seq<byte> := seq(size, _ => 1), seq(length, _ => 2);
      assert |m| == size && |file| == length && Load(m, s, file) != Intended(m, s, file);
    }
  }

  /** The header fields that steer the loader. */
  datatype Header = Header(entry: u32, tableOffset: u32, entrySize: u16, entries: u16) {
    /** The product of the two; see OffsetIsProduct. */
    function TableSize(): nat { Offset(entrySize, entries) }
  }

  function HeaderOf(file: seq<byte>): Header
    requires |file| >= HEADER_SIZE
  {
    Header(Le32(file, 24), Le32(file, 28), Le16(file, 42), Le16(file, 44))
  }

  // ----- the validation of the header

  /** 32-bit, little-endian, both versions 1, executable, x86. */
  predicate PlainFieldsValid(file: seq<byte>)
    requires |file| >= HEADER_SIZE
  {
    && file[4] == 1 && file[5] == 1 && file[6] == 1 && Le32(file, 20) == 1
    && Le16(file, 16) == 2 && Le16(file, 18) == 3
  }

  predicate ValidHeader(file: seq<byte>)
    requires |file| >= HEADER_SIZE
  {
    file[..4] == ELF_MAGIC && PlainFieldsValid(file)
  }

  /** The flag that `ELF_Read` computes; `memcmp` gives 0 for equal strings. */
  predicate ValidationFlag(file: seq<byte>)
    requires |file| >= HEADER_SIZE
  {
    file[..4] != ELF_MAGIC && PlainFieldsValid(file)
  }

  /** The headers are there, and so is the program header table unless it is empty. */
  predicate HasTable(file: seq<byte>) {
    && |file| >= HEADER_SIZE
    && var h := HeaderOf(file); (h.TableSize() == 0 || h.tableOffset + h.TableSize() <= |file|)
  }

  function TableOf(file: seq<byte>): (r: seq<byte>)
    requires HasTable(file)
    ensures |r| == HeaderOf(file).TableSize()
  {
    var h := HeaderOf(file);
    if h.TableSize() == 0 then [] else file[h.tableOffset..h.tableOffset + h.TableSize()]
  }

  /** The table is behind the header, has room for 32-byte entries, and fits the header buffer
      next to the load buffer, so that reading it does no damage. */
  predicate TableFits(h: Header) {
    && HEADER_SIZE <= h.tableOffset <= HEADER_SIZE + (BUFFERS_END - HEADER_BUFFER)
    && 32 <= h.entrySize && h.TableSize() <= LOAD_BUFFER - HEADER_BUFFER
  }

  lemma {:induction false} EntryInside(size: nat, entries: nat, i: nat)
    requires i < entries && 32 <= size
    ensures Offset(size, i) + 32 <= Offset(size, i + 1) <= Offset(size, entries)
    decreases entries
  {
    if i + 1 < entries {
      EntryInside(size, entries - 1, i);
    }
  }

  /** Program header `i` of a table of `entries` entries of `size` bytes. */
  function HeaderAt(table: seq<byte>, size: nat, entries: nat, i: nat): Segment
    requires i < entries && 32 <= size && |table| == Offset(size, entries)
  {
    EntryInside(size, entries, i);
    SegmentAt(table, Offset(size, i))
  }

  /** The program headers, in table order. */
  function Segments(file: seq<byte>): (r: seq<Segment>)
    requires HasTable(file) && TableFits(HeaderOf(file))
    ensures |r| == HeaderOf(file).entries
  {
    var h, table := HeaderOf(file), TableOf(file);
    seq(h.entries, i requires 0 <= i < h.entries => HeaderAt(table, h.entrySize, h.entries, i))
  }

  ghost predicate SegmentOk(s: Segment, memory: nat) {
    s.kind == TYPE_LOAD ==> Placed(s, memory)
  }

  predicate InFile(s: Segment, length: nat) {
    s.kind == TYPE_LOAD ==> s.offset + s.fileSize <= length
  }

  function LoadOne(m: seq<byte>, s: Segment, file: seq<byte>): (r: seq<byte>)
    requires s.kind == TYPE_LOAD ==> Placed(s, |m|) && s.offset + s.fileSize <= |file|
    ensures |r| == |m|
  {
    if s.kind == TYPE_LOAD then Load(m, s, file) else m
  }

  ghost predicate AllOk(segments: seq<Segment>, memory: nat, length: nat) {
    forall k :: 0 <= k < |segments| ==> SegmentOk(segments[k], memory) && InFile(segments[k], length)
  }

  /** All entries of `segments`, in table order. */
  ghost function LoadAll(m: seq<byte>, segments: seq<Segment>, file: seq<byte>): (r: seq<byte>)
    requires AllOk(segments, |m|, |file|)
    ensures |r| == |m|
  {
    if segments == [] then m
    else
      var n := |segments| - 1;
      assert SegmentOk(segments[n], |m|) && InFile(segments[n], |file|);
      LoadOne(LoadAll(m, segments[..n], file), segments[n], file)
  }

  /** The same fold, with what the headers ask for. */
  ghost function IntendedAll(m: seq<byte>, segments: seq<Segment>, file: seq<byte>): (r: seq<byte>)
    requires AllOk(segments, |m|, |file|)
    ensures |r| == |m|
  {
    if segments == [] then m
    else
      var n := |segments| - 1;
      var rest, s := IntendedAll(m, segments[..n], file), segments[n];
      assert SegmentOk(s, |m|) && InFile(s, |file|);
      if s.kind == TYPE_LOAD then Intended(rest, s, file) else rest
  }

  /** For segments of ordinary size the memory ends up as the program headers ask. */
  lemma {:induction false} LoadAllIsIntended(m: seq<byte>, segments: seq<Segment>, file: seq<byte>)
    requires AllOk(segments, |m|, |file|)
    requires forall k :: 0 <= k < |segments| && segments[k].kind == TYPE_LOAD ==> Small(segments[k])
    ensures LoadAll(m, segments, file) == IntendedAll(m, segments, file)
    decreases |segments|
  {
    if segments != [] {
      var n := |segments| - 1;
      LoadAllIsIntended(m, segments[..n], file);
      if segments[n].kind == TYPE_LOAD {
        SmallIsIntended(LoadAll(m, segments[..n], file), segments[n], file);
      }
    }
  }

  // ----- the code

  ghost predicate Buffers(a: seq<byte>, b: seq<byte>) {
    SameOutside(a, b, HEADER_BUFFER, BUFFERS_END)
  }

  /** A write into the loader's buffers does not show. */
  lemma WriteInside(a: seq<byte>, b: seq<byte>, at: nat, data: seq<byte>)
    requires Buffers(a, b) && HEADER_BUFFER <= at && at + |data| <= BUFFERS_END && at + |data| <= |b|
    ensures Buffers(a, Patch(b, at, data))
  {
  }

  /** A write elsewhere shows alike in both images. */
  lemma WriteOutside(a: seq<byte>, b: seq<byte>, at: nat, data: seq<byte>)
    requires Buffers(a, b) && at + |data| <= |a| && (at + |data| <= HEADER_BUFFER || BUFFERS_END <= at)
    ensures Buffers(Patch(a, at, data), Patch(b, at, data))
  {
  }

  function Bytes32(n: u32): (s: seq<byte>)
    ensures |s| == 4
  {
    [n % 0x100, n / 0x100 % 0x100, n / 0x100 / 0x100 % 0x100, n / 0x100 / 0x100 / 0x100]
  }

  lemma Bytes32RoundTrip(n: u32)
    ensures Le32(Bytes32(n), 0) == n
  {
    var a := n / 0x100;
    var b := a / 0x100;
    DivMod(n, 0x100);
    DivMod(a, 0x100);
    DivMod(b, 0x100);
  }

  /** A 32-bit store. */
  method Store32(mem: array<byte>, at: nat, n: u32)
    requires at + 4 <= mem.Length
    modifies mem
    ensures mem[..] == Patch(old(mem[..]), at, Bytes32(n))
    ensures Le32(mem[..], at) == n
  {
    var s := Bytes32(n);
    mem[at], mem[at + 1], mem[at + 2], mem[at + 3] := s[0], s[1], s[2], s[3];
    Bytes32RoundTrip(n);
  }

  /** Inside the header buffer nothing but the 4 bytes at `at` has changed. */
  ghost predicate HeaderKept(a: seq<byte>, b: seq<byte>, at: nat) {
    |a| == |b| && forall i :: HEADER_BUFFER <= i < LOAD_BUFFER && i < |a| && !(at <= i < at + 4) ==> a[i] == b[i]
  }

  /** The field at `field` counted down by the `read` bytes that are in the load buffer. */
  method CountDown(mem: array<byte>, field: nat, left: u32, read: nat, ghost ideal: seq<byte>, ghost before: seq<byte>,
                   ghost piece: seq<byte>)
    requires BUFFERS_END <= mem.Length && HEADER_BUFFER <= field && field + 4 <= LOAD_BUFFER
    requires |before| == mem.Length && Buffers(ideal, before) && |piece| == read <= left && read <= LOAD_SIZE
    requires mem[..] == Patch(before, LOAD_BUFFER, piece)
    modifies mem
    ensures Buffers(ideal, mem[..]) && HeaderKept(before, mem[..], field) && Le32(mem[..], field) == left - read
    ensures mem[LOAD_BUFFER..LOAD_BUFFER + read] == piece
  {
    WriteInside(ideal, before, LOAD_BUFFER, piece);
    PatchSlice(before, LOAD_BUFFER, piece);
    ghost var between := mem[..];
    Store32(mem, field, left - read);
    WriteInside(ideal, between, field, Bytes32(left - read));
    LaterSliceKept(between, mem[..], field, Bytes32(left - read), read);
  }

  lemma LaterSliceKept(before: seq<byte>, after: seq<byte>, field: nat, word: seq<byte>, n: nat)
    requires field + 4 <= LOAD_BUFFER && |word| == 4 && LOAD_BUFFER + n <= |before| && after == Patch(before, field, word)
    ensures after[LOAD_BUFFER..LOAD_BUFFER + n] == before[LOAD_BUFFER..LOAD_BUFFER + n]
  {
    var got, expected := after[LOAD_BUFFER..LOAD_BUFFER + n], before[LOAD_BUFFER..LOAD_BUFFER + n];
    forall i | 0 <= i < n
      ensures got[i] == expected[i]
    {
      assert got[i] == after[LOAD_BUFFER + i];
    }
  }

  lemma FetchedInside(ideal: seq<byte>, before: seq<byte>, after: seq<byte>, piece: seq<byte>, field: nat)
    requires BUFFERS_END <= |before| && |piece| <= LOAD_SIZE && after == Patch(before, LOAD_BUFFER, piece)
    requires Buffers(ideal, before)
    ensures Buffers(ideal, after) && HeaderKept(before, after, field)
  {
    WriteInside(ideal, before, LOAD_BUFFER, piece);
  }

  /** The same beside the open file. */
  method CountBeside(d: Driver, h: int, mem: array<byte>, field: nat, left: u32, read: nat, ghost ideal: seq<byte>,
                     ghost before: seq<byte>, ghost piece: seq<byte>, ghost file: seq<byte>, ghost p: nat, ghost open: set<int>,
                     ghost start: seq<byte>)
    requires HeaderKept(start, before, field)
    requires Reading(d, h, file, p) && d.OpenSet() == open && mem !in d.Repr
    requires BUFFERS_END <= mem.Length && HEADER_BUFFER <= field && field + 4 <= LOAD_BUFFER
    requires |before| == mem.Length && Buffers(ideal, before) && |piece| == read <= left && read <= LOAD_SIZE
    requires mem[..] == Patch(before, LOAD_BUFFER, piece)
    modifies mem
    ensures Reading(d, h, file, p) && d.OpenSet() == open && d.part.disk.failures == old(d.part.disk.failures)
    ensures Buffers(ideal, mem[..]) && HeaderKept(start, mem[..], field) && Le32(mem[..], field) == left - read
    ensures mem[LOAD_BUFFER..LOAD_BUFFER + read] == piece
  {
    CountDown(mem, field, left, read, ideal, before, piece);
    HeaderKeptTwice(start, before, mem[..], field);
  }

  /** One pass of either loop: a chunk into the load buffer, and the field counted down. */
  method NextPart(d: Driver, h: int, mem: array<byte>, field: nat, ghost left: nat, ghost want: nat, ghost start: seq<byte>,
                  ghost p: nat, ghost file: seq<byte>, ghost ideal: seq<byte>)
    returns (ok: bool, read: nat)
    requires Reading(d, h, file, p) && d.part.disk.Reliable() && mem !in d.Repr
    requires BUFFERS_END <= mem.Length && HEADER_BUFFER <= field && field + 4 <= LOAD_BUFFER
    requires left == Le32(mem[..], field) > 0 && want == Min(left, LOAD_SIZE) && Buffers(ideal, mem[..])
    requires HeaderKept(start, mem[..], field)
    modifies d.FileOf(h)`position, d.FileOf(h)`size, d.FileOf(h)`currentCluster, d.FileOf(h)`currentSectorInCluster
    modifies d.FileOf(h).buffer, d`fatCachePosition, d`fatFault, d.fatCache, d.part.disk, mem
    ensures RootFresh(d) && d.part.disk.failures == old(d.part.disk.failures) && d.OpenSet() == old(d.OpenSet())
    ensures Buffers(ideal, mem[..]) && HeaderKept(start, mem[..], field)
    ensures ok <==> p + want <= |file|
    ensures ok ==> read == want && Reading(d, h, file, p + want) && Le32(mem[..], field) == left - want
    ensures ok ==> mem[LOAD_BUFFER..LOAD_BUFFER + want] == file[p..p + want]
  {
    ghost var before := mem[..];
    var count := Le32(mem[..], field);
    var shouldRead: nat := Min(count, LOAD_SIZE);
    ghost var piece, p';
    read, piece, p' := Fetch(d, h, shouldRead, mem, LOAD_BUFFER, file, p);
    ok := read == shouldRead;
    ghost var fetched := mem[..];
    FetchedInside(ideal, before, fetched, piece, field);
    HeaderKeptTwice(start, before, fetched, field);
    assert ok <==> p + want <= |file|;
    if ok {
      assert p' == p + want && piece == file[p..p + want];
      CountBeside(d, h, mem, field, count, read, ideal, before, piece, file, p', d.OpenSet(), start);
    }
  }

  /** The seeking loop: the Offset field, at `field`, counts down to zero. */
  method Seek(d: Driver, h: int, mem: array<byte>, field: nat, ghost file: seq<byte>, ghost ideal: seq<byte>) returns (ok: bool)
    requires Reading(d, h, file, 0) && d.part.disk.Reliable() && mem !in d.Repr
    requires BUFFERS_END <= mem.Length && HEADER_BUFFER <= field && field + 4 <= LOAD_BUFFER && Buffers(ideal, mem[..])
    modifies d.FileOf(h)`position, d.FileOf(h)`size, d.FileOf(h)`currentCluster, d.FileOf(h)`currentSectorInCluster
    modifies d.FileOf(h).buffer, d`fatCachePosition, d`fatFault, d.fatCache, d.part.disk, mem
    ensures RootFresh(d) && d.part.disk.failures == old(d.part.disk.failures) && d.OpenSet() == old(d.OpenSet())
    ensures Buffers(ideal, mem[..]) && HeaderKept(old(mem[..]), mem[..], field)
    ensures ok <==> old(Le32(mem[..], field)) <= |file|
    ensures ok ==> Reading(d, h, file, old(Le32(mem[..], field)))
  {
    ghost var offset, start := Le32(mem[..], field), mem[..];
    ghost var p: nat := 0;
    while Le32(mem[..], field) > 0
      invariant Reading(d, h, file, p) && p + Le32(mem[..], field) == offset
      invariant d.part.disk.failures == old(d.part.disk.failures) && d.OpenSet() == old(d.OpenSet())
      invariant Buffers(ideal, mem[..]) && HeaderKept(start, mem[..], field)
      decreases Le32(mem[..], field)
    {
      var read;
      ghost var left := offset - p;
      ok, read := NextPart(d, h, mem, field, left, Min(left, LOAD_SIZE), start, p, file, ideal);
      if !ok {
        return;
      }
      p := p + read;
    }
    ok := true;
  }

  lemma HeaderOutside(m: seq<byte>, address: nat, data: seq<byte>, field: nat)
    requires address + |data| <= |m| && (address + |data| <= HEADER_BUFFER || BUFFERS_END <= address)
    requires BUFFERS_END <= |m| && HEADER_BUFFER <= field && field + 4 <= LOAD_BUFFER
    ensures forall i :: HEADER_BUFFER <= i < LOAD_BUFFER ==> Patch(m, address, data)[i] == m[i]
    ensures Le32(Patch(m, address, data), field) == Le32(m, field)
  {
  }

  /** How far a loop over `size` bytes can have come: by full chunks, or to the end. */
  predicate Reached(size: nat, done: nat) { done == size || (done < size && done % LOAD_SIZE == 0) }

  /** One chunk more. Of a full chunk nothing is stored, its 16-bit count being zero. */
  lemma StoredStep(m: seq<byte>, address: nat, file: seq<byte>, offset: nat, size: nat, done: nat, read: nat,
                   image: seq<byte>, at: nat, piece: seq<byte>, done': nat)
    requires Reached(size, done) && done < size && read == Min(size - done, LOAD_SIZE) && done' == done + read
    requires address + size <= |m| && offset + done' <= |file| && U16(read) <= read
    requires image == Stored(m, address, file, offset, done) && at == address + done
    requires piece == file[offset + done..offset + done + U16(read)]
    ensures Reached(size, done') && at + |piece| <= |image|
    ensures Patch(image, at, piece) == Stored(m, address, file, offset, done')
  {
    assert image == m;
    var s := Skipped(done');
    var stored := file[offset + s..offset + done'];
    if read == LOAD_SIZE {
      assert s == done' && stored == [] && piece == [];
      PatchNothing(m, address + s);
      PatchNothing(m, at);
    } else {
      assert s == done && stored == piece;
    }
  }

  lemma PatchNothing(m: seq<byte>, at: nat)
    requires at <= |m|
    ensures Patch(m, at, []) == m
  {
  }

  lemma HeaderKeptTwice(a: seq<byte>, b: seq<byte>, c: seq<byte>, at: nat)
    requires HeaderKept(a, b, at) && HeaderKept(b, c, at)
    ensures HeaderKept(a, c, at)
  {
  }

  /** Memory after `done` of `size` bytes: the size field holds the rest, and memory shows `image`,
      which is `ideal` with what was stored. */
  ghost predicate Copied(mem: seq<byte>, field: nat, start: seq<byte>, ideal: seq<byte>, address: nat,
                         file: seq<byte>, offset: nat, size: nat, done: nat, image: seq<byte>)
  {
    && BUFFERS_END <= |mem| && HEADER_BUFFER <= field && field + 4 <= LOAD_BUFFER
    && Reached(size, done) && done + Le32(mem, field) == size && HeaderKept(start, mem, field)
    && offset + done <= |file| && address + size <= |ideal|
    && Buffers(image, mem) && image == Stored(ideal, address, file, offset, done)
  }

  /** The state of the copying loop: the file stands at the next byte as well. */
  ghost predicate Copying(d: Driver, h: int, mem: array<byte>, field: nat, start: seq<byte>, ideal: seq<byte>, address: nat,
                          file: seq<byte>, offset: nat, size: nat, done: nat, image: seq<byte>)
    reads d, d.Repr, mem
  {
    && Reading(d, h, file, offset + done) && mem !in d.Repr
    && Copied(mem[..], field, start, ideal, address, file, offset, size, done, image)
  }

  predicate ClearOfBuffers(address: nat, size: nat, memory: nat) {
    BUFFERS_END <= address && address + size <= memory
  }

  /** The `memcpy` of the chunk in the load buffer. */
  method StorePart(mem: array<byte>, field: nat, virtualAddress: nat, read: nat, ghost start: seq<byte>, ghost ideal: seq<byte>,
                   ghost address: nat, ghost file: seq<byte>, ghost offset: nat, ghost size: nat, ghost done: nat, ghost image: seq<byte>)
    returns (ghost image': seq<byte>, ghost done': nat)
    requires BUFFERS_END <= mem.Length && HEADER_BUFFER <= field && field + 4 <= LOAD_BUFFER
    requires Reached(size, done) && done < size && read == Min(size - done, LOAD_SIZE) && offset + done + read <= |file|
    requires address + size <= |ideal| && ClearOfBuffers(address, size, mem.Length) && virtualAddress == address + done
    requires Buffers(image, mem[..]) && image == Stored(ideal, address, file, offset, done)
    requires HeaderKept(start, mem[..], field) && done + read + Le32(mem[..], field) == size
    requires mem[LOAD_BUFFER..LOAD_BUFFER + read] == file[offset + done..offset + done + read]
    modifies mem
    ensures done' == done + read && Copied(mem[..], field, start, ideal, address, file, offset, size, done', image')
  {
    U16Bound(read);
    ghost var before, piece := mem[..], file[offset + done..offset + done + U16(read)];
    assert mem[LOAD_BUFFER..LOAD_BUFFER + U16(read)] == mem[LOAD_BUFFER..LOAD_BUFFER + read][..U16(read)] == piece;
    MemCpy(mem, virtualAddress, mem, LOAD_BUFFER, read);
    WriteOutside(image, before, virtualAddress, piece);
    HeaderOutside(before, virtualAddress, piece, field);
    done' := done + read;
    image' := Patch(image, virtualAddress, piece);
    StoredStep(ideal, address, file, offset, size, done, read, image, virtualAddress, piece, done');
  }

  /** The same beside the open file. */
  method StoreNext(d: Driver, h: int, mem: array<byte>, field: nat, virtualAddress: nat, read: nat, ghost start: seq<byte>,
                   ghost ideal: seq<byte>, ghost address: nat, ghost file: seq<byte>, ghost offset: nat, ghost size: nat,
                   ghost done: nat, ghost image: seq<byte>)
    returns (ghost image': seq<byte>, ghost done': nat)
    requires Reading(d, h, file, offset + done + read) && mem !in d.Repr
    requires BUFFERS_END <= mem.Length && HEADER_BUFFER <= field && field + 4 <= LOAD_BUFFER
    requires Reached(size, done) && done < size && read == Min(size - done, LOAD_SIZE) && offset + done + read <= |file|
    requires address + size <= |ideal| && ClearOfBuffers(address, size, mem.Length) && virtualAddress == address + done
    requires Buffers(image, mem[..]) && image == Stored(ideal, address, file, offset, done)
    requires HeaderKept(start, mem[..], field) && done + read + Le32(mem[..], field) == size
    requires mem[LOAD_BUFFER..LOAD_BUFFER + read] == file[offset + done..offset + done + read]
    modifies mem
    ensures RootFresh(d) && d.part.disk.failures == old(d.part.disk.failures) && d.OpenSet() == old(d.OpenSet())
    ensures done' == done + read && Copying(d, h, mem, field, start, ideal, address, file, offset, size, done', image')
  {
    image', done' := StorePart(mem, field, virtualAddress, read, start, ideal, address, file, offset, size, done, image);
  }

  /** One pass of the copying loop. */
  method CopyPart(d: Driver, h: int, mem: array<byte>, field: nat, virtualAddress: nat, ghost start: seq<byte>, ghost ideal: seq<byte>,
                  ghost address: nat, ghost file: seq<byte>, ghost offset: nat, ghost size: nat, ghost done: nat,
                  ghost image: seq<byte>)
    returns (ok: bool, read: nat, ghost image': seq<byte>, ghost done': nat)
    requires Copying(d, h, mem, field, start, ideal, address, file, offset, size, done, image) && done < size && d.part.disk.Reliable()
    requires ClearOfBuffers(address, size, mem.Length) && virtualAddress == address + done
    modifies d.FileOf(h)`position, d.FileOf(h)`size, d.FileOf(h)`currentCluster, d.FileOf(h)`currentSectorInCluster
    modifies d.FileOf(h).buffer, d`fatCachePosition, d`fatFault, d.fatCache, d.part.disk, mem
    ensures RootFresh(d) && d.part.disk.failures == old(d.part.disk.failures) && d.OpenSet() == old(d.OpenSet())
    ensures !ok ==> offset + size > |file|
    ensures ok ==> read > 0 && done' == done + read
    ensures ok ==> Copying(d, h, mem, field, start, ideal, address, file, offset, size, done', image')
  {
    ghost var p, left := offset + done, size - done;
    ghost var want := Min(left, LOAD_SIZE);
    image', done' := image, done;
    ok, read := NextPart(d, h, mem, field, left, want, start, p, file, image);
    if ok {
      image', done' := StoreNext(d, h, mem, field, virtualAddress, read, start, ideal, address, file, offset, size, done, image);
    }
  }

  /** The copying loop. Memory ends up with the file's bytes, except those of full chunks. */
  method CopyIn(d: Driver, h: int, mem: array<byte>, field: nat, address: nat, ghost offset: nat, ghost size: nat,
                ghost file: seq<byte>, ghost ideal: seq<byte>)
    returns (ok: bool)
    requires Copying(d, h, mem, field, mem[..], ideal, address, file, offset, size, 0, ideal) && d.part.disk.Reliable()
    requires ClearOfBuffers(address, size, mem.Length)
    modifies d.FileOf(h)`position, d.FileOf(h)`size, d.FileOf(h)`currentCluster, d.FileOf(h)`currentSectorInCluster
    modifies d.FileOf(h).buffer, d`fatCachePosition, d`fatFault, d.fatCache, d.part.disk, mem
    ensures RootFresh(d) && d.part.disk.failures == old(d.part.disk.failures) && d.OpenSet() == old(d.OpenSet())
    ensures ok <==> offset + size <= |file|
    ensures ok ==> d.IsOpen(h) && HeaderKept(old(mem[..]), mem[..], field)
    ensures ok ==> address + size <= |ideal| && Buffers(Stored(ideal, address, file, offset, size), mem[..])
  {
    ghost var start, done, image := mem[..], 0, ideal;
    var virtualAddress := address;
    while Le32(mem[..], field) > 0
      invariant Copying(d, h, mem, field, start, ideal, address, file, offset, size, done, image)
      invariant virtualAddress == address + done
      invariant d.part.disk.failures == old(d.part.disk.failures) && d.OpenSet() == old(d.OpenSet())
      decreases Le32(mem[..], field)
    {
      var read;
      ok, read, image, done := CopyPart(d, h, mem, field, virtualAddress, start, ideal, address, file, offset, size, done, image);
      if !ok {
        return;
      }
      virtualAddress := virtualAddress + read;
    }
    ok := true;
  }

  lemma FieldKept(a: seq<byte>, b: seq<byte>, at: nat, field: nat)
    requires HeaderKept(a, b, at) && HEADER_BUFFER <= field && field + 4 <= LOAD_BUFFER <= |a|
    requires field + 4 <= at || at + 4 <= field
    ensures Le32(b, field) == Le32(a, field)
  {
  }

  /** In the header buffer nothing outside the 32 bytes at `at` has changed. */
  /** The header buffer is as it was. */
  ghost predicate BufferKept(a: seq<byte>, b: seq<byte>) {
    |a| == |b| && forall i :: HEADER_BUFFER <= i < LOAD_BUFFER && i < |a| ==> b[i] == a[i]
  }

  ghost predicate OthersKept(a: seq<byte>, b: seq<byte>, at: nat) {
    |a| == |b| && forall i :: HEADER_BUFFER <= i < LOAD_BUFFER && i < |a| && !(at <= i < at + 32) ==> a[i] == b[i]
  }

  lemma FieldsOfEntry(a: seq<byte>, b: seq<byte>, c: seq<byte>, d: seq<byte>, at: nat)
    requires BufferKept(a, b) && LOAD_BUFFER <= |a|
    requires HeaderKept(b, c, at + 4) && HeaderKept(c, d, at + 16)
    ensures OthersKept(a, d, at)
  {
  }

  /** The copy of one segment out of the file: seek, then copy. */
  method TransferSegment(d: Driver, h: int, mem: array<byte>, ph: nat, address: nat, ghost file: seq<byte>, ghost ideal: seq<byte>,
                         ghost offset: nat, ghost size: nat)
    returns (ok: bool)
    requires Reading(d, h, file, 0) && d.part.disk.Reliable() && mem !in d.Repr
    requires BUFFERS_END <= mem.Length && HEADER_BUFFER <= ph && ph + 32 <= LOAD_BUFFER && Buffers(ideal, mem[..])
    requires offset == Le32(mem[..], ph + 4) && size == Le32(mem[..], ph + 16) && ClearOfBuffers(address, size, mem.Length)
    modifies d.FileOf(h)`position, d.FileOf(h)`size, d.FileOf(h)`currentCluster, d.FileOf(h)`currentSectorInCluster
    modifies d.FileOf(h).buffer, d`fatCachePosition, d`fatFault, d.fatCache, d.part.disk, mem
    ensures RootFresh(d) && d.part.disk.failures == old(d.part.disk.failures) && d.OpenSet() == old(d.OpenSet())
    ensures ok <==> offset + size <= |file|
    ensures ok ==> d.IsOpen(h) && Buffers(Stored(ideal, address, file, offset, size), mem[..])
    ensures ok ==> OthersKept(old(mem[..]), mem[..], ph)
  {
    ghost var start := mem[..];
    ok := Seek(d, h, mem, ph + 4, file, ideal);
    if ok {
      ghost var between := mem[..];
      FieldKept(start, between, ph + 4, ph + 16);
      ok := CopyIn(d, h, mem, ph + 16, address, offset, size, file, ideal);
      if ok {
        FieldsOfEntry(start, start, between, mem[..], ph);
      }
    }
  }

  /** The `memset` of one segment. */
  method ZeroSegment(mem: array<byte>, ph: nat, ghost ideal: seq<byte>, ghost s: Segment)
    returns (virtualAddress: u32, ghost zeroed: seq<byte>)
    requires BUFFERS_END <= mem.Length && HEADER_BUFFER <= ph && ph + 32 <= LOAD_BUFFER && Buffers(ideal, mem[..])
    requires s == SegmentAt(mem[..], ph) && Placed(s, mem.Length)
    modifies mem
    ensures virtualAddress == s.vaddr && U16(s.memSize) <= s.memSize
    ensures zeroed == Patch(ideal, s.vaddr, Zeros(U16(s.memSize))) && Buffers(zeroed, mem[..])
    ensures BufferKept(old(mem[..]), mem[..])
    ensures Le32(mem[..], ph + 4) == s.offset && Le32(mem[..], ph + 16) == s.fileSize
  {
    ghost var start := mem[..];
    virtualAddress := Le32(mem[..], ph + 8);
    var memorySize := Le32(mem[..], ph + 20);
    U16Bound(memorySize);
    MemSet(mem, virtualAddress, 0, memorySize);
    ghost var zeros := Zeros(U16(memorySize));
    assert mem[..] == Patch(start, virtualAddress, zeros);
    WriteOutside(ideal, start, virtualAddress, zeros);
    zeroed := Patch(ideal, virtualAddress, zeros);
    HeaderOutside(start, virtualAddress, zeros, ph + 4);
    HeaderOutside(start, virtualAddress, zeros, ph + 16);
    assert BufferKept(start, mem[..]);
  }

  lemma OthersKeptAfter(a: seq<byte>, b: seq<byte>, c: seq<byte>, at: nat)
    requires BufferKept(a, b) && OthersKept(b, c, at)
    ensures OthersKept(a, c, at)
  {
  }

  /** One more slot than before is open: the error exits do not close the file. */
  ghost predicate Leaked(d: Driver, open: set<int>)
    reads d, d.Repr
  {
    d.Valid() && exists h :: LowestFree(open, h) && d.OpenSet() == open + {h}
  }

  /** A segment of the open file, which is closed again if the segment could be transferred. */
  method TransferAndClose(d: Driver, path: seq<byte>, h: int, mem: array<byte>, ph: nat, address: nat, ghost e: DirEntry,
                          ghost open: set<int>, ghost file: seq<byte>, ghost ideal: seq<byte>,
                         ghost offset: nat, ghost size: nat)
    returns (ok: bool)
    requires Reading(d, h, file, 0) && d.part.disk.Reliable() && mem !in d.Repr
    requires LowestFree(open, h) && d.OpenSet() == open + {h} && LeadsTo(d.v, path, e)
    requires BUFFERS_END <= mem.Length && HEADER_BUFFER <= ph && ph + 32 <= LOAD_BUFFER && Buffers(ideal, mem[..])
    requires offset == Le32(mem[..], ph + 4) && size == Le32(mem[..], ph + 16) && ClearOfBuffers(address, size, mem.Length)
    modifies d.FileOf(h)`position, d.FileOf(h)`size, d.FileOf(h)`currentCluster, d.FileOf(h)`currentSectorInCluster
    modifies d.FileOf(h)`isOpen, d.FileOf(h).buffer, d`fatCachePosition, d`fatFault, d.fatCache, d.part.disk, mem
    ensures d.part.disk.failures == old(d.part.disk.failures)
    ensures ok <==> offset + size <= |file|
    ensures ok ==> Buffers(Stored(ideal, address, file, offset, size), mem[..])
    ensures if ok then Ready(d, path, e, open) && OthersKept(old(mem[..]), mem[..], ph) else Leaked(d, open)
  {
    ok := TransferSegment(d, h, mem, ph, address, file, ideal, offset, size);
    if ok {
      CloseFile(d, path, h, e, open);
    }
  }

  /** The rest of the loop body: open the file, transfer the segment, close the file. */
  method ReadSegment(d: Driver, path: seq<byte>, mem: array<byte>, ph: nat, address: nat, ghost e: DirEntry,
                     ghost open: set<int>, ghost file: seq<byte>, ghost ideal: seq<byte>,
                         ghost offset: nat, ghost size: nat)
    returns (ok: bool)
    requires Ready(d, path, e, open) && d.part.disk.Reliable() && file == d.v.Content(e) && mem !in d.Repr
    requires BUFFERS_END <= mem.Length && HEADER_BUFFER <= ph && ph + 32 <= LOAD_BUFFER && Buffers(ideal, mem[..])
    requires offset == Le32(mem[..], ph + 4) && size == Le32(mem[..], ph + 16) && ClearOfBuffers(address, size, mem.Length)
    modifies d.root, d.root.buffer, d`fatCachePosition, d`fatFault, d.fatCache, d.part.disk, mem
    modifies (set f | f in d.files && !f.isOpen), (set f | f in d.files && !f.isOpen :: f.buffer)
    ensures d.part.disk.failures == old(d.part.disk.failures)
    ensures ok <==> offset + size <= |file|
    ensures ok ==> Buffers(Stored(ideal, address, file, offset, size), mem[..])
    ensures if ok then Ready(d, path, e, open) && OthersKept(old(mem[..]), mem[..], ph) else Leaked(d, open)
  {
    ghost var before := mem[..];
    var h := OpenFile(d, path, e, open);
    assert mem[..] == before;
    ok := TransferAndClose(d, path, h, mem, ph, address, e, open, file, ideal, offset, size);
  }

  /** The same while the file is closed. */
  method ZeroBeside(d: Driver, path: seq<byte>, mem: array<byte>, ph: nat, ghost e: DirEntry, ghost open: set<int>,
                    ghost ideal: seq<byte>, ghost s: Segment, ghost start: seq<byte>)
    returns (virtualAddress: u32, ghost zeroed: seq<byte>)
    requires Ready(d, path, e, open) && mem !in d.Repr && start == mem[..]
    requires BUFFERS_END <= mem.Length && HEADER_BUFFER <= ph && ph + 32 <= LOAD_BUFFER && Buffers(ideal, mem[..])
    requires s == SegmentAt(mem[..], ph) && Placed(s, mem.Length)
    modifies mem
    ensures Ready(d, path, e, open) && d.part.disk.failures == old(d.part.disk.failures)
    ensures virtualAddress == s.vaddr && U16(s.memSize) <= s.memSize
    ensures zeroed == Patch(ideal, s.vaddr, Zeros(U16(s.memSize))) && Buffers(zeroed, mem[..])
    ensures BufferKept(start, mem[..])
    ensures Le32(mem[..], ph + 4) == s.offset && Le32(mem[..], ph + 16) == s.fileSize
  {
    virtualAddress, zeroed := ZeroSegment(mem, ph, ideal, s);
  }

  /** A program header of type LOAD: zeros first, then the bytes of the file. */
  method LoadSegment(d: Driver, path: seq<byte>, mem: array<byte>, ph: nat, ghost e: DirEntry, ghost open: set<int>,
                     ghost file: seq<byte>, ghost ideal: seq<byte>, ghost s: Segment)
    returns (ok: bool)
    requires Ready(d, path, e, open) && d.part.disk.Reliable() && file == d.v.Content(e) && mem !in d.Repr
    requires BUFFERS_END <= mem.Length && HEADER_BUFFER <= ph && ph + 32 <= LOAD_BUFFER && Buffers(ideal, mem[..])
    requires s == SegmentAt(mem[..], ph) && Placed(s, mem.Length)
    modifies d.root, d.root.buffer, d`fatCachePosition, d`fatFault, d.fatCache, d.part.disk, mem
    modifies (set f | f in d.files && !f.isOpen), (set f | f in d.files && !f.isOpen :: f.buffer)
    ensures d.part.disk.failures == old(d.part.disk.failures)
    ensures ok <==> s.offset + s.fileSize <= |file|
    ensures ok ==> Buffers(Load(ideal, s, file), mem[..])
    ensures if ok then Ready(d, path, e, open) && OthersKept(old(mem[..]), mem[..], ph) else Leaked(d, open)
  {
    ghost var start, zeroed := mem[..], ideal;
    var virtualAddress;
    virtualAddress, zeroed := ZeroBeside(d, path, mem, ph, e, open, ideal, s, start);
    ghost var between := mem[..];
    ok := ReadSegment(d, path, mem, ph, virtualAddress, e, open, file, zeroed, s.offset, s.fileSize);
    if ok {
      OthersKeptAfter(start, between, mem[..], ph);
    }
  }

  /** The body of the loop over the program headers. */
  method LoadEntry(d: Driver, path: seq<byte>, mem: array<byte>, ph: nat, ghost e: DirEntry, ghost open: set<int>,
                   ghost file: seq<byte>, ghost ideal: seq<byte>, ghost s: Segment)
    returns (ok: bool)
    requires Ready(d, path, e, open) && d.part.disk.Reliable() && file == d.v.Content(e) && mem !in d.Repr
    requires BUFFERS_END <= mem.Length && HEADER_BUFFER <= ph && ph + 32 <= LOAD_BUFFER && Buffers(ideal, mem[..])
    requires s == SegmentAt(mem[..], ph) && SegmentOk(s, mem.Length)
    modifies d.root, d.root.buffer, d`fatCachePosition, d`fatFault, d.fatCache, d.part.disk, mem
    modifies (set f | f in d.files && !f.isOpen), (set f | f in d.files && !f.isOpen :: f.buffer)
    ensures d.part.disk.failures == old(d.part.disk.failures)
    ensures ok <==> InFile(s, |file|)
    ensures ok ==> Buffers(LoadOne(ideal, s, file), mem[..])
    ensures if ok then Ready(d, path, e, open) && OthersKept(old(mem[..]), mem[..], ph) else Leaked(d, open)
  {
    ok := true;
    if Le32(mem[..], ph) == TYPE_LOAD {
      ok := LoadSegment(d, path, mem, ph, e, open, file, ideal, s);
    }
  }

  lemma HeaderOfPrefix(file: seq<byte>)
    requires |file| >= HEADER_SIZE
    ensures HeaderOf(file[..HEADER_SIZE]) == HeaderOf(file)
    ensures ValidationFlag(file[..HEADER_SIZE]) == ValidationFlag(file)
  {
    assert file[..HEADER_SIZE][..4] == file[..4];
  }

  /** The first read: the ELF header. */
  method ReadHeader(d: Driver, h: int, mem: array<byte>, ghost file: seq<byte>, ghost ideal: seq<byte>)
    returns (ok: bool, header: Header, flag: bool)
    requires Reading(d, h, file, 0) && d.part.disk.Reliable() && mem !in d.Repr
    requires BUFFERS_END <= mem.Length && Buffers(ideal, mem[..])
    modifies d.FileOf(h)`position, d.FileOf(h)`size, d.FileOf(h)`currentCluster, d.FileOf(h)`currentSectorInCluster
    modifies d.FileOf(h).buffer, d`fatCachePosition, d`fatFault, d.fatCache, d.part.disk, mem
    ensures RootFresh(d) && d.part.disk.failures == old(d.part.disk.failures) && d.OpenSet() == old(d.OpenSet())
    ensures Buffers(ideal, mem[..])
    ensures ok <==> |file| >= HEADER_SIZE
    ensures ok ==> header == HeaderOf(file) && flag == ValidationFlag(file) && Reading(d, h, file, HEADER_SIZE)
  {
    ghost var before := mem[..];
    var read;
    ghost var piece, p';
    read, piece, p' := Fetch(d, h, HEADER_SIZE, mem, HEADER_BUFFER, file, 0);
    WriteInside(ideal, before, HEADER_BUFFER, piece);
    ok, header, flag := read == HEADER_SIZE, Header(0, 0, 0, 0), true;
    if ok {
      PatchSlice(before, HEADER_BUFFER, piece);
      assert piece == file[..HEADER_SIZE];
      var bytes := mem[HEADER_BUFFER..HEADER_BUFFER + HEADER_SIZE];
      header, flag := HeaderOf(bytes), ValidationFlag(bytes);
      HeaderOfPrefix(file);
    }
  }

  /** The read that skips to the program header table. */
  method SkipToTable(d: Driver, h: int, mem: array<byte>, tableOffset: u32, ghost file: seq<byte>, ghost ideal: seq<byte>)
    requires HEADER_SIZE <= |file| && HEADER_SIZE <= tableOffset <= HEADER_SIZE + (BUFFERS_END - HEADER_BUFFER)
    requires Reading(d, h, file, HEADER_SIZE) && d.part.disk.Reliable() && mem !in d.Repr
    requires BUFFERS_END <= mem.Length && Buffers(ideal, mem[..])
    modifies d.FileOf(h)`position, d.FileOf(h)`size, d.FileOf(h)`currentCluster, d.FileOf(h)`currentSectorInCluster
    modifies d.FileOf(h).buffer, d`fatCachePosition, d`fatFault, d.fatCache, d.part.disk, mem
    ensures d.part.disk.failures == old(d.part.disk.failures) && d.OpenSet() == old(d.OpenSet())
    ensures Buffers(ideal, mem[..]) && Reading(d, h, file, Min(tableOffset, |file|))
  {
    ghost var before := mem[..];
    var filePosition := HEADER_SIZE;
    Fits32(tableOffset - filePosition);
    var skipped;
    ghost var piece, p';
    skipped, piece, p' := Fetch(d, h, U32(tableOffset - filePosition), mem, HEADER_BUFFER, file, HEADER_SIZE);
    WriteInside(ideal, before, HEADER_BUFFER, piece);
  }

  /** The multiplication in the code. */
  method EntryAddress(size: nat, i: nat) returns (at: nat)
    ensures at == Offset(size, i)
  {
    OffsetIsProduct(size, i);
    at := i * size;
  }

  /** What the read of the table tells. */
  lemma TableOutcome(file: seq<byte>, header: Header, p: nat, piece: seq<byte>, ideal: seq<byte>, before: seq<byte>, after: seq<byte>)
    requires HEADER_SIZE <= |file| && header == HeaderOf(file) && TableFits(header) && BUFFERS_END <= |before|
    requires p == Min(header.tableOffset, |file|) && |piece| == Min(header.TableSize(), |file| - p) && piece == file[p..p + |piece|]
    requires Buffers(ideal, before) && after == Patch(before, HEADER_BUFFER, piece)
    ensures Buffers(ideal, after)
    ensures |piece| == header.TableSize() <==> HasTable(file)
    ensures HasTable(file) ==> TableFrom(after, TableOf(file), 0)
  {
    WriteInside(ideal, before, HEADER_BUFFER, piece);
    PatchSlice(before, HEADER_BUFFER, piece);
  }

  /** The read of the table, from where the skip came to. */
  method FetchTable(d: Driver, h: int, mem: array<byte>, size: nat, ghost header: Header, ghost p: nat, ghost file: seq<byte>,
                    ghost ideal: seq<byte>)
    returns (ok: bool)
    requires HEADER_SIZE <= |file| && header == HeaderOf(file) && TableFits(header) && size == header.TableSize()
    requires p == Min(header.tableOffset, |file|) && Reading(d, h, file, p) && d.part.disk.Reliable() && mem !in d.Repr
    requires BUFFERS_END <= mem.Length && Buffers(ideal, mem[..])
    modifies d.FileOf(h)`position, d.FileOf(h)`size, d.FileOf(h)`currentCluster, d.FileOf(h)`currentSectorInCluster
    modifies d.FileOf(h).buffer, d`fatCachePosition, d`fatFault, d.fatCache, d.part.disk, mem
    ensures RootFresh(d) && d.part.disk.failures == old(d.part.disk.failures) && d.OpenSet() == old(d.OpenSet())
    ensures Buffers(ideal, mem[..]) && d.IsOpen(h)
    ensures ok <==> HasTable(file)
    ensures ok ==> TableFrom(mem[..], TableOf(file), 0)
  {
    ghost var before := mem[..];
    var read;
    ghost var piece, p';
    read, piece, p' := Fetch(d, h, size, mem, HEADER_BUFFER, file, p);
    ok := read == size;
    TableOutcome(file, header, p, piece, ideal, before, mem[..]);
  }

  /** The reads up to the program header table, and of the table itself. */
  method ReadTable(d: Driver, h: int, mem: array<byte>, header: Header, ghost file: seq<byte>, ghost ideal: seq<byte>)
    returns (ok: bool)
    requires HEADER_SIZE <= |file| && header == HeaderOf(file) && TableFits(header)
    requires Reading(d, h, file, HEADER_SIZE) && d.part.disk.Reliable() && mem !in d.Repr
    requires BUFFERS_END <= mem.Length && Buffers(ideal, mem[..])
    modifies d.FileOf(h)`position, d.FileOf(h)`size, d.FileOf(h)`currentCluster, d.FileOf(h)`currentSectorInCluster
    modifies d.FileOf(h).buffer, d`fatCachePosition, d`fatFault, d.fatCache, d.part.disk, mem
    ensures RootFresh(d) && d.part.disk.failures == old(d.part.disk.failures) && d.OpenSet() == old(d.OpenSet())
    ensures Buffers(ideal, mem[..]) && d.IsOpen(h)
    ensures ok <==> HasTable(file)
    ensures ok ==> TableFrom(mem[..], TableOf(file), 0)
  {
    SkipToTable(d, h, mem, header.tableOffset, file, ideal);
    var size := EntryAddress(header.entrySize, header.entries);
    ok := FetchTable(d, h, mem, size, header, Min(header.tableOffset, |file|), file, ideal);
  }

  datatype ElfResult = Loaded(entry: u32) | LoadError

  predicate AllInFile(segments: seq<Segment>, length: nat) {
    forall k :: 0 <= k < |segments| ==> InFile(segments[k], length)
  }

  /** A file that can be loaded completely. */
  predicate Loadable(file: seq<byte>) {
    && HasTable(file) && TableFits(HeaderOf(file))
    && AllInFile(Segments(file), |file|)
  }

  /** Files that agree from byte 24 on are loaded or refused alike, with the same entry point and
      the same program headers, whatever the validated fields are. */
  lemma NotValidated(file: seq<byte>, other: seq<byte>)
    requires HEADER_SIZE <= |file| == |other| && file[VALIDATED..] == other[VALIDATED..]
    ensures Loadable(file) <==> Loadable(other)
    ensures Loadable(file) ==> HeaderOf(file).entry == HeaderOf(other).entry && Segments(file) == Segments(other)
  {
    assert forall k :: VALIDATED <= k < |file| ==>
      file[k] == file[VALIDATED..][k - VALIDATED] && other[k] == other[VALIDATED..][k - VALIDATED];
    assert HeaderOf(file) == HeaderOf(other);
    if HasTable(file) && TableFits(HeaderOf(file)) {
      assert TableOf(file) == TableOf(other);
      assert Segments(file) == Segments(other);
    }
  }

  /** What comes after the validated fields decides alone: files with an invalid header are all
      refused if and only if, with this rest, every file is. */
  lemma RefusedExactly(rest: seq<byte>)
    requires |rest| >= HEADER_SIZE - VALIDATED
    ensures (forall start: seq<byte> :: |start| == VALIDATED && !ValidHeader(start + rest) ==> !Loadable(start + rest))
      <==> (forall start: seq<byte> :: |start| == VALIDATED ==> !Loadable(start + rest))
  {
    var bad := Zeros(VALIDATED);
    assert (bad + rest)[..4] == [0, 0, 0, 0] && (bad + rest)[..4][0] != ELF_MAGIC[0];
    forall start: seq<byte> | |start| == VALIDATED
      ensures Loadable(start + rest) <==> Loadable(bad + rest)
    {
      NotValidated(start + rest, bad + rest);
    }
  }

  /** If the flag were used, it would refuse every valid file; it gives the right answer exactly
      for the files that are invalid beyond their magic number. */
  lemma FlagExact(file: seq<byte>)
    requires |file| >= HEADER_SIZE
    ensures ValidHeader(file) ==> !ValidationFlag(file)
    ensures (ValidationFlag(file) <==> ValidHeader(file)) <==> !PlainFieldsValid(file)
  {
  }

  /** A failing input: a header of zeros but for an empty program header table. */
  lemma ZeroHeaderLoads()
    ensures var file := Zeros(28) + [52, 0, 0, 0] + Zeros(10) + [32, 0] + Zeros(8);
      |file| == HEADER_SIZE && Loadable(file) && !ValidHeader(file)
  {
    var file := Zeros(28) + [52, 0, 0, 0] + Zeros(10) + [32, 0] + Zeros(8);
    assert Le32(file, 28) == 52 && Le16(file, 42) == 32 && Le16(file, 44) == 0;
    assert file[..4][0] != ELF_MAGIC[0];
  }

  ghost predicate AllPlaced(segments: seq<Segment>, memory: nat) {
    forall k :: 0 <= k < |segments| ==> SegmentOk(segments[k], memory)
  }

  /** What the loader relies on: a table that fits its buffers, and segments that stay clear of
      the loader, the driver and the end of memory. */
  ghost predicate Benign(file: seq<byte>, memory: nat) {
    && BUFFERS_END <= memory
    && (|file| >= HEADER_SIZE ==> TableFits(HeaderOf(file)))
    && (HasTable(file) ==> AllPlaced(Segments(file), memory))
  }

  /** The table is intact in the header buffer from offset `at` on. */
  ghost predicate TableFrom(mem: seq<byte>, table: seq<byte>, at: nat) {
    && at <= |table| <= LOAD_BUFFER - HEADER_BUFFER && BUFFERS_END <= |mem|
    && mem[HEADER_BUFFER + at..HEADER_BUFFER + |table|] == table[at..]
  }

  lemma TableFromSegment(mem: seq<byte>, table: seq<byte>, at: nat)
    requires TableFrom(mem, table, at) && at + 32 <= |table|
    ensures SegmentAt(mem, HEADER_BUFFER + at) == SegmentAt(table, at)
  {
    var got, expected := mem[HEADER_BUFFER + at..HEADER_BUFFER + |table|], table[at..];
    assert forall k :: 0 <= k < 32 ==> got[k] == mem[HEADER_BUFFER + at + k] && expected[k] == table[at + k];
  }

  lemma TableFromNext(before: seq<byte>, after: seq<byte>, table: seq<byte>, at: nat, next: nat)
    requires TableFrom(before, table, at) && OthersKept(before, after, HEADER_BUFFER + at)
    requires at + 32 <= next <= |table|
    ensures TableFrom(after, table, next)
  {
    var got, expected := after[HEADER_BUFFER + next..HEADER_BUFFER + |table|], table[next..];
    forall k | 0 <= k < |table| - next
      ensures got[k] == expected[k]
    {
      assert before[HEADER_BUFFER + at..HEADER_BUFFER + |table|][next - at + k] == table[at..][next - at + k];
    }
  }

  /** Memory is what the segments make of `m`. */
  ghost predicate Built(mem: seq<byte>, m: seq<byte>, segments: seq<Segment>, file: seq<byte>) {
    |m| == |mem| && AllOk(segments, |m|, |file|) && Buffers(LoadAll(m, segments, file), mem)
  }

  lemma BuiltNext(mem: seq<byte>, m: seq<byte>, segments: seq<Segment>, file: seq<byte>, i: nat, ideal: seq<byte>)
    requires i < |segments| && AllOk(segments[..i], |m|, |file|) && ideal == LoadAll(m, segments[..i], file)
    requires |m| == |mem| && SegmentOk(segments[i], |m|) && InFile(segments[i], |file|)
    requires Buffers(LoadOne(ideal, segments[i], file), mem)
    ensures Built(mem, m, segments[..i + 1], file)
  {
    var upTo := segments[..i + 1];
    assert upTo[..i] == segments[..i];
    AllOkNext(segments, i, |m|, |file|);
  }

  lemma AllOkNext(segments: seq<Segment>, i: nat, memory: nat, length: nat)
    requires i < |segments| && AllOk(segments[..i], memory, length)
    requires SegmentOk(segments[i], memory) && InFile(segments[i], length)
    ensures AllOk(segments[..i + 1], memory, length)
  {
    forall k | 0 <= k < i + 1
      ensures SegmentOk(segments[k], memory) && InFile(segments[k], length)
    {
      assert k < i ==> segments[k] == segments[..i][k];
    }
  }

  /** The state of the loop before entry `i`. */
  ghost predicate Loading(mem: seq<byte>, m: seq<byte>, file: seq<byte>, i: nat) {
    && HasTable(file) && TableFits(HeaderOf(file)) && i <= HeaderOf(file).entries
    && TableFrom(mem, TableOf(file), Offset(HeaderOf(file).entrySize, i))
    && Built(mem, m, Segments(file)[..i], file)
  }

  lemma LoadingStarts(mem: seq<byte>, m: seq<byte>, file: seq<byte>)
    requires HasTable(file) && TableFits(HeaderOf(file)) && TableFrom(mem, TableOf(file), 0) && Buffers(m, mem)
    ensures Loading(mem, m, file, 0)
  {
    assert Segments(file)[..0] == [];
  }

  lemma LoadingDone(mem: seq<byte>, m: seq<byte>, file: seq<byte>)
    requires HasTable(file) && TableFits(HeaderOf(file)) && Loading(mem, m, file, HeaderOf(file).entries)
    ensures Built(mem, m, Segments(file), file) && AllInFile(Segments(file), |file|)
  {
    var segments := Segments(file);
    assert segments[..|segments|] == segments;
    OkIsInFile(segments, |mem|, |file|);
  }

  /** Entry `i` is intact in the header buffer. */
  lemma EntryIntact(mem: seq<byte>, m: seq<byte>, file: seq<byte>, i: nat, size: nat, ph: nat)
    returns (ideal: seq<byte>, segment: Segment)
    requires Loading(mem, m, file, i) && i < HeaderOf(file).entries && size == HeaderOf(file).entrySize
    requires ph == HEADER_BUFFER + Offset(size, i)
    ensures ph + 32 <= LOAD_BUFFER && BUFFERS_END <= |mem| == |m|
    ensures segment == Segments(file)[i] == SegmentAt(mem, ph)
    ensures AllOk(Segments(file)[..i], |m|, |file|) && ideal == LoadAll(m, Segments(file)[..i], file) && Buffers(ideal, mem)
  {
    var at, table := Offset(size, i), TableOf(file);
    EntryInside(size, HeaderOf(file).entries, i);
    TableFromSegment(mem, table, at);
    segment := SegmentAt(table, at);
    assert segment == HeaderAt(table, size, HeaderOf(file).entries, i);
    ideal := LoadAll(m, Segments(file)[..i], file);
  }

  lemma LoadingNext(before: seq<byte>, after: seq<byte>, m: seq<byte>, file: seq<byte>, i: nat, next: nat, ph: nat,
                    ideal: seq<byte>, segment: Segment)
    requires Loading(before, m, file, i) && i < HeaderOf(file).entries && next == i + 1 && |after| == |before|
    requires ph == HEADER_BUFFER + Offset(HeaderOf(file).entrySize, i)
    requires AllOk(Segments(file)[..i], |m|, |file|) && ideal == LoadAll(m, Segments(file)[..i], file)
    requires segment == Segments(file)[i] && SegmentOk(segment, |m|) && InFile(segment, |file|)
    requires Buffers(LoadOne(ideal, segment, file), after) && OthersKept(before, after, ph)
    ensures Loading(after, m, file, next)
  {
    var h, table := HeaderOf(file), TableOf(file);
    var at := Offset(h.entrySize, i);
    EntryInside(h.entrySize, h.entries, i);
    BuiltNext(after, m, Segments(file), file, i, ideal);
    TableFromNext(before, after, table, at, Offset(h.entrySize, next));
  }

  /** One pass of the loop over the program headers. */
  method EntryPass(d: Driver, path: seq<byte>, mem: array<byte>, ph: nat, ghost size: nat, ghost i: nat,
                   ghost e: DirEntry, ghost open: set<int>,
                   ghost file: seq<byte>, ghost m: seq<byte>, ghost s: Segment)
    returns (ok: bool, ghost next: nat)
    requires Ready(d, path, e, open) && d.part.disk.Reliable() && file == d.v.Content(e) && mem !in d.Repr
    requires Loading(mem[..], m, file, i) && i < HeaderOf(file).entries && size == HeaderOf(file).entrySize
    requires ph == HEADER_BUFFER + Offset(size, i) && s == Segments(file)[i] && SegmentOk(s, mem.Length)
    modifies d.root, d.root.buffer, d`fatCachePosition, d`fatFault, d.fatCache, d.part.disk, mem
    modifies (set f | f in d.files && !f.isOpen), (set f | f in d.files && !f.isOpen :: f.buffer)
    ensures d.part.disk.failures == old(d.part.disk.failures)
    ensures ok <==> InFile(s, |file|)
    ensures next == i + 1
    ensures if ok then Ready(d, path, e, open) && Loading(mem[..], m, file, next) else Leaked(d, open)
  {
    next := i + 1;
    ghost var before := mem[..];
    ghost var ideal, segment := EntryIntact(before, m, file, i, size, ph);
    ok := LoadEntry(d, path, mem, ph, e, open, file, ideal, s);
    if ok {
      LoadingNext(before, mem[..], m, file, i, next, ph, ideal, s);
    }
  }

  lemma PlacedAt(segments: seq<Segment>, memory: nat, i: nat)
    requires AllPlaced(segments, memory) && i < |segments|
    ensures SegmentOk(segments[i], memory)
  {
  }

  lemma NotAllInFile(segments: seq<Segment>, length: nat, i: nat)
    requires i < |segments| && !InFile(segments[i], length)
    ensures !AllInFile(segments, length)
  {
  }

  /** The body of the loop, with what it leaves behind either way. */
  method LoadNext(d: Driver, path: seq<byte>, mem: array<byte>, size: nat, i: nat, ghost e: DirEntry,
                  ghost open: set<int>, ghost spare: set<object>,
                  ghost file: seq<byte>, ghost m: seq<byte>)
    returns (ok: bool, ghost next: nat)
    requires Ready(d, path, e, open) && d.part.disk.Reliable() && file == d.v.Content(e) && mem !in d.Repr
    requires Loading(mem[..], m, file, i) && i < HeaderOf(file).entries && size == HeaderOf(file).entrySize
    requires AllPlaced(Segments(file), mem.Length)
    requires Spares(d, open, spare)
    modifies d.root, d.root.buffer, spare, d`fatCachePosition, d`fatFault, d.fatCache, d.part.disk, mem
    ensures d.part.disk.failures == old(d.part.disk.failures) && next == i + 1
    ensures ok ==> Ready(d, path, e, open) && Loading(mem[..], m, file, next)
    ensures !ok ==> Leaked(d, open) && !AllInFile(Segments(file), |file|)
  {
    PlacedAt(Segments(file), mem.Length, i);
    ClosedAreSpare(d, open, spare);
    var at := EntryAddress(size, i);
    ok, next := EntryPass(d, path, mem, HEADER_BUFFER + at, size, i, e, open, file, m, Segments(file)[i]);
    if !ok {
      NotAllInFile(Segments(file), |file|, i);
    }
  }

  /** The loop over the program headers. */
  method LoadEntries(d: Driver, path: seq<byte>, mem: array<byte>, header: Header, ghost e: DirEntry,
                     ghost open: set<int>, ghost spare: set<object>,
                     ghost file: seq<byte>, ghost m: seq<byte>)
    returns (ok: bool)
    requires Ready(d, path, e, open) && d.part.disk.Reliable() && file == d.v.Content(e) && mem !in d.Repr
    requires HasTable(file) && header == HeaderOf(file) && TableFits(header) && AllPlaced(Segments(file), mem.Length)
    requires Loading(mem[..], m, file, 0)
    requires Spares(d, open, spare)
    modifies d.root, d.root.buffer, spare, d`fatCachePosition, d`fatFault, d.fatCache, d.part.disk, mem
    ensures d.part.disk.failures == old(d.part.disk.failures)
    ensures ok <==> AllInFile(Segments(file), |file|)
    ensures if ok then Ready(d, path, e, open) && Built(mem[..], m, Segments(file), file) else Leaked(d, open)
  {
    var i := 0;
    ghost var next := 0;
    while i < header.entries
      invariant 0 <= i <= header.entries && next == i
      invariant Ready(d, path, e, open) && d.part.disk.failures == old(d.part.disk.failures)
      invariant Loading(mem[..], m, file, next)
      decreases header.entries - i
    {
      ok, next := LoadNext(d, path, mem, header.entrySize, i, e, open, spare, file, m);
      if !ok {
        return;
      }
      i := i + 1;
    }
    ok := true;
    LoadingDone(mem[..], m, file);
  }

  lemma OkIsInFile(segments: seq<Segment>, memory: nat, length: nat)
    requires AllOk(segments, memory, length)
    ensures AllInFile(segments, length)
  {
    forall k | 0 <= k < |segments|
      ensures InFile(segments[k], length)
    {
      assert SegmentOk(segments[k], memory);
    }
  }

  /** Header and table, from the start of the open file. The validation flag is not used. */
  method ReadBoth(d: Driver, h: int, mem: array<byte>, ghost file: seq<byte>, ghost ideal: seq<byte>)
    returns (ok: bool, header: Header)
    requires Reading(d, h, file, 0) && d.part.disk.Reliable() && mem !in d.Repr
    requires BUFFERS_END <= mem.Length && Buffers(ideal, mem[..])
    requires |file| >= HEADER_SIZE ==> TableFits(HeaderOf(file))
    modifies d.FileOf(h)`position, d.FileOf(h)`size, d.FileOf(h)`currentCluster, d.FileOf(h)`currentSectorInCluster
    modifies d.FileOf(h).buffer, d`fatCachePosition, d`fatFault, d.fatCache, d.part.disk, mem
    ensures RootFresh(d) && d.part.disk.failures == old(d.part.disk.failures) && d.OpenSet() == old(d.OpenSet())
    ensures Buffers(ideal, mem[..])
    ensures ok <==> HasTable(file)
    ensures ok ==> header == HeaderOf(file) && d.IsOpen(h) && TableFrom(mem[..], TableOf(file), 0)
  {
    var flag;
    ok, header, flag := ReadHeader(d, h, mem, file, ideal);
    if ok {
      ok := ReadTable(d, h, mem, header, file, ideal);
    }
  }

  /** Header and table of the open file, which is closed again if they could be read. */
  method ReadAndClose(d: Driver, path: seq<byte>, h: int, mem: array<byte>, ghost e: DirEntry, ghost open: set<int>,
                      ghost file: seq<byte>)
    returns (ok: bool, header: Header)
    requires Reading(d, h, file, 0) && d.part.disk.Reliable() && mem !in d.Repr
    requires LowestFree(open, h) && d.OpenSet() == open + {h} && LeadsTo(d.v, path, e)
    requires BUFFERS_END <= mem.Length && (|file| >= HEADER_SIZE ==> TableFits(HeaderOf(file)))
    modifies d.FileOf(h)`position, d.FileOf(h)`size, d.FileOf(h)`currentCluster, d.FileOf(h)`currentSectorInCluster
    modifies d.FileOf(h)`isOpen, d.FileOf(h).buffer, d`fatCachePosition, d`fatFault, d.fatCache, d.part.disk, mem
    ensures d.part.disk.failures == old(d.part.disk.failures)
    ensures ok <==> HasTable(file)
    ensures if ok then Ready(d, path, e, open) else Leaked(d, open)
    ensures ok ==> header == HeaderOf(file) && TableFrom(mem[..], TableOf(file), 0) && Buffers(old(mem[..]), mem[..])
  {
    ok, header := ReadBoth(d, h, mem, file, mem[..]);
    if ok {
      CloseFile(d, path, h, e, open);
    }
  }

  /** Everything before the loop. */
  method ReadHeaders(d: Driver, path: seq<byte>, mem: array<byte>, ghost e: DirEntry, ghost open: set<int>, ghost file: seq<byte>)
    returns (ok: bool, header: Header)
    requires Ready(d, path, e, open) && d.part.disk.Reliable() && file == d.v.Content(e) && mem !in d.Repr
    requires BUFFERS_END <= mem.Length && (|file| >= HEADER_SIZE ==> TableFits(HeaderOf(file)))
    modifies d.root, d.root.buffer, d`fatCachePosition, d`fatFault, d.fatCache, d.part.disk, mem
    modifies (set f | f in d.files && !f.isOpen), (set f | f in d.files && !f.isOpen :: f.buffer)
    ensures d.part.disk.failures == old(d.part.disk.failures)
    ensures ok <==> HasTable(file)
    ensures if ok then Ready(d, path, e, open) else Leaked(d, open)
    ensures ok ==> header == HeaderOf(file) && Loading(mem[..], old(mem[..]), file, 0)
  {
    ghost var m := mem[..];
    var h := OpenFile(d, path, e, open);
    ok, header := ReadAndClose(d, path, h, mem, e, open, file);
    if ok {
      LoadingStarts(mem[..], m, file);
    }
  }

  /** The whole of the loader's work. */
  method ReadAll(d: Driver, path: seq<byte>, mem: array<byte>, ghost e: DirEntry, ghost open: set<int>, ghost spare: set<object>,
                 ghost file: seq<byte>, ghost m: seq<byte>)
    returns (r: ElfResult)
    requires Ready(d, path, e, open) && d.part.disk.Reliable() && mem !in d.Repr
    requires file == d.v.Content(e) && m == mem[..] && Benign(file, mem.Length) && Spares(d, open, spare)
    modifies d.root, d.root.buffer, spare, d`fatCachePosition, d`fatFault, d.fatCache, d.part.disk, mem
    ensures d.part.disk.failures == old(d.part.disk.failures)
    ensures r.Loaded? <==> Loadable(file)
    ensures r.Loaded? ==> r.entry == HeaderOf(file).entry && Ready(d, path, e, open)
    ensures r.Loaded? ==> Built(mem[..], m, Segments(file), file)
    ensures r.LoadError? ==> Leaked(d, open)
  {
    ClosedAreSpare(d, open, spare);
    var ok, header := ReadHeaders(d, path, mem, e, open, file);
    if ok {
      ok := LoadEntries(d, path, mem, header, e, open, spare, file, m);
    }
    r := if ok then Loaded(header.entry) else LoadError;
  }

  /** `ELF_Read`. */
  method Read(d: Driver, path: seq<byte>, mem: array<byte>, ghost e: DirEntry, ghost open: set<int>) returns (r: ElfResult)
    requires Ready(d, path, e, open) && d.part.disk.Reliable() && mem !in d.Repr
    requires Benign(d.v.Content(e), mem.Length)
    modifies d.root, d.root.buffer, d`fatCachePosition, d`fatFault, d.fatCache, d.part.disk, mem
    modifies (set f | f in d.files && !f.isOpen), (set f | f in d.files && !f.isOpen :: f.buffer)
    ensures d.part.disk.failures == old(d.part.disk.failures)
    ensures r.Loaded? <==> Loadable(d.v.Content(e))
    ensures var file := d.v.Content(e);
      match r
      case Loaded(entry) => (entry == HeaderOf(file).entry && Ready(d, path, e, open) &&
                             Built(mem[..], old(mem[..]), Segments(file), file))
      case LoadError => Leaked(d, open)
  {
    ghost var spare: set<object> :=
      (set f | f in d.files && !f.isOpen) + (set f | f in d.files && !f.isOpen :: f.buffer);
    r := ReadAll(d, path, mem, e, open, spare, d.v.Content(e), mem[..]);
  }
}
